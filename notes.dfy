/**
 * The back end's wallet-keyed note service. The note repository is a
 * table of notes in insertion order; note ids come from a counter that
 * stands in for generated UUIDs, and the creation timestamp is supplied
 * by the caller (it is the clock's reading).
 */
module Notes {
  import opened Wrappers

  type NoteId = nat

  type Timestamp = int

  datatype Note = Note(id: NoteId, walletAddress: string, text: string, createdAt: Timestamp)

  /** The response body: a copy of the saved note's fields. */
  datatype NoteResponse = NoteResponse(id: NoteId, walletAddress: string, text: string, createdAt: Timestamp)

  datatype ServiceError = NoteNotFound | NotYourNote | NotFoundOrNoPermission
  {
    /** The message of the RuntimeException the service throws. */
    function Message(): string
    {
      match this
      case NoteNotFound => "Note not found"
      case NotYourNote => "You can only update your own notes"
      case NotFoundOrNoPermission => "Note not found or you don't have permission to delete it"
    }
  }

  function ToResponse(n: Note): NoteResponse
  {
    NoteResponse(n.id, n.walletAddress, n.text, n.createdAt)
  }

  /** A response carries every field of its note, so two different notes never give the same response. */
  lemma ToResponseInjective(a: Note, b: Note)
    ensures ToResponse(a) == ToResponse(b) <==> a == b
  {
  }

  /** `findById`: the position of the note with that id, if any. */
  function IndexOfId(notes: seq<Note>, id: NoteId): (r: Option<nat>)
    ensures r.Some? ==> r.value < |notes| && notes[r.value].id == id
    ensures r.None? ==> forall k :: 0 <= k < |notes| ==> notes[k].id != id
  {
    if notes == [] then None
    else if notes[0].id == id then Some(0)
    else
      match IndexOfId(notes[1..], id)
      case None => None
      case Some(k) => Some(k + 1)
  }

  /** The notes of one wallet, in table order (the WHERE clause of the derived query). */
  function OwnedBy(notes: seq<Note>, wallet: string): (r: seq<Note>)
    ensures |r| <= |notes|
    ensures forall n :: n in r <==> n in notes && n.walletAddress == wallet
  {
    if notes == [] then []
    else if notes[0].walletAddress == wallet then [notes[0]] + OwnedBy(notes[1..], wallet)
    else OwnedBy(notes[1..], wallet)
  }

  /** The listing holds each of the wallet's notes as often as the table does, and nothing else. */
  lemma {:induction false} OwnedByCounts(notes: seq<Note>, wallet: string)
    ensures forall n :: multiset(OwnedBy(notes, wallet))[n] == if n.walletAddress == wallet then multiset(notes)[n] else 0
  {
    if notes != [] {
      assert notes == [notes[0]] + notes[1..];
      OwnedByCounts(notes[1..], wallet);
    }
  }

  function Responses(notes: seq<Note>): (r: seq<NoteResponse>)
    ensures |r| == |notes|
    ensures forall i :: 0 <= i < |notes| ==> r[i] == ToResponse(notes[i])
  {
    if notes == [] then [] else [ToResponse(notes[0])] + Responses(notes[1..])
  }

  ghost predicate NewestFirst(s: seq<NoteResponse>)
  {
    forall i, j :: 0 <= i < j < |s| ==> s[i].createdAt >= s[j].createdAt
  }

  /** Putting in front an element no older than the head keeps a list newest-first. */
  lemma PrependNewestFirst(a: NoteResponse, rest: seq<NoteResponse>)
    requires NewestFirst(rest)
    requires rest == [] || rest[0].createdAt <= a.createdAt
    ensures NewestFirst([a] + rest)
  {
    var r := [a] + rest;
    forall i, j | 0 <= i < j < |r| ensures r[i].createdAt >= r[j].createdAt {
      assert r[j] == rest[j - 1];
      if i > 0 {
        assert r[i] == rest[i - 1];
      }
    }
  }

  function InsertNewestFirst(n: NoteResponse, s: seq<NoteResponse>): (r: seq<NoteResponse>)
    requires NewestFirst(s)
    ensures NewestFirst(r)
    ensures multiset(r) == multiset(s) + multiset{n}
    ensures |r| == |s| + 1 && (r[0] == n || (s != [] && r[0] == s[0]))
  {
    if s == [] then [n]
    else if n.createdAt >= s[0].createdAt then
      PrependNewestFirst(n, s);
      [n] + s
    else
      var rest := InsertNewestFirst(n, s[1..]);
      PrependNewestFirst(s[0], rest);
      calc {
        multiset([s[0]] + rest);
        multiset{s[0]} + multiset(rest);
        multiset{s[0]} + multiset(s[1..]) + multiset{n};
        { assert s == [s[0]] + s[1..]; }
        multiset(s) + multiset{n};
      }
      [s[0]] + rest
  }

  /** ORDER BY createdAt DESC; the order among equal timestamps is left open by the query. */
  function SortNewestFirst(s: seq<NoteResponse>): (r: seq<NoteResponse>)
    ensures NewestFirst(r)
    ensures multiset(r) == multiset(s)
  {
    if s == [] then []
    else
      assert s == [s[0]] + s[1..];
      InsertNewestFirst(s[0], SortNewestFirst(s[1..]))
  }

  /** Every position holds a note whose id is below `bound`, and no id occurs twice. */
  ghost predicate IdsBelowAndDistinct(notes: seq<Note>, bound: NoteId)
  {
    && (forall i :: 0 <= i < |notes| ==> notes[i].id < bound)
    && (forall i, j :: 0 <= i < j < |notes| ==> notes[i].id != notes[j].id)
  }

  /** Saving a note adds it at the end of its own wallet's listing and leaves every other listing as it was. */
  lemma {:induction false} CreateExtendsListing(notes: seq<Note>, n: Note, wallet: string)
    ensures OwnedBy(notes + [n], wallet) == OwnedBy(notes, wallet) + (if n.walletAddress == wallet then [n] else [])
  {
    if notes != [] {
      assert (notes + [n])[1..] == notes[1..] + [n];
      CreateExtendsListing(notes[1..], n, wallet);
    } else {
      assert OwnedBy([n], wallet) == (if n.walletAddress == wallet then [n] else []) + OwnedBy([], wallet);
    }
  }

  /** Editing one note's text leaves every other wallet's listing as it was. */
  lemma {:induction false} UpdateKeepsOtherListings(notes: seq<Note>, k: nat, text: string, wallet: string)
    requires k < |notes| && notes[k].walletAddress != wallet
    ensures OwnedBy(notes[k := notes[k].(text := text)], wallet) == OwnedBy(notes, wallet)
  {
    var updated := notes[k := notes[k].(text := text)];
    if k > 0 {
      assert updated[1..] == notes[1..][k - 1 := notes[k].(text := text)];
      UpdateKeepsOtherListings(notes[1..], k - 1, text, wallet);
    } else {
      assert updated[1..] == notes[1..];
    }
  }

  /** Editing a note's text replaces exactly that note in its own wallet's listing. */
  lemma UpdateReplacesInListing(notes: seq<Note>, k: nat, text: string, wallet: string)
    requires k < |notes| && notes[k].walletAddress == wallet
    ensures multiset(OwnedBy(notes[k := notes[k].(text := text)], wallet))
            == multiset(OwnedBy(notes, wallet)) - multiset{notes[k]} + multiset{notes[k].(text := text)}
  {
    var edited := notes[k].(text := text);
    var updated := notes[k := edited];
    assert multiset(updated) == multiset(notes) - multiset{notes[k]} + multiset{edited};
    OwnedByCounts(updated, wallet);
    OwnedByCounts(notes, wallet);
    var after, before := multiset(OwnedBy(updated, wallet)), multiset(OwnedBy(notes, wallet));
    forall m ensures after[m] == (before - multiset{notes[k]} + multiset{edited})[m] {
      if m.walletAddress == wallet {
        assert after[m] == multiset(updated)[m] && before[m] == multiset(notes)[m];
      } else {
        assert after[m] == 0 && before[m] == 0 && m != notes[k] && m != edited;
      }
    }
    assert after == before - multiset{notes[k]} + multiset{edited};
  }

  /** Listing a concatenation lists each part in turn. */
  lemma {:induction false} OwnedByAppend(a: seq<Note>, b: seq<Note>, wallet: string)
    ensures OwnedBy(a + b, wallet) == OwnedBy(a, wallet) + OwnedBy(b, wallet)
  {
    if a != [] {
      assert (a + b)[0] == a[0] && (a + b)[1..] == a[1..] + b;
      OwnedByAppend(a[1..], b, wallet);
    } else {
      assert a + b == b;
    }
  }

  /** Removing one note from the table removes exactly that note from its wallet's listing and nothing from the others. */
  lemma RemoveFromListing(notes: seq<Note>, k: nat, wallet: string)
    requires k < |notes|
    ensures notes[k].walletAddress == wallet ==>
      multiset(OwnedBy(notes[..k] + notes[k + 1..], wallet)) == multiset(OwnedBy(notes, wallet)) - multiset{notes[k]}
    ensures notes[k].walletAddress != wallet ==>
      OwnedBy(notes[..k] + notes[k + 1..], wallet) == OwnedBy(notes, wallet)
  {
    var removed := notes[..k] + notes[k + 1..];
    assert notes == notes[..k] + ([notes[k]] + notes[k + 1..]);
    if notes[k].walletAddress == wallet {
      assert multiset(removed) == multiset(notes) - multiset{notes[k]};
      OwnedByCounts(removed, wallet);
      OwnedByCounts(notes, wallet);
      var kept, before := multiset(OwnedBy(removed, wallet)), multiset(OwnedBy(notes, wallet));
      forall n ensures kept[n] == (before - multiset{notes[k]})[n] {
        if n.walletAddress == wallet {
          assert kept[n] == multiset(removed)[n] && before[n] == multiset(notes)[n];
        } else {
          assert kept[n] == 0 && before[n] == 0 && n != notes[k];
        }
      }
      assert kept == before - multiset{notes[k]};
    } else {
      OwnedByAppend(notes[..k], notes[k + 1..], wallet);
      OwnedByAppend(notes[..k], [notes[k]] + notes[k + 1..], wallet);
      OwnedByAppend([notes[k]], notes[k + 1..], wallet);
      assert OwnedBy([notes[k]], wallet) == [];
    }
  }

  class NoteService {
    /** The note repository's table. */
    var notes: seq<Note>
    /** The id the next saved note receives. */
    var nextId: NoteId

    ghost predicate Valid()
      reads this
    {
      IdsBelowAndDistinct(notes, nextId)
    }

    constructor ()
      ensures Valid() && notes == []
    {
      notes, nextId := [], 0;
    }

    /** `createNote`: saves a new note for the wallet and returns it. */
    method CreateNote(walletAddress: string, text: string, now: Timestamp) returns (r: NoteResponse)
      requires Valid()
      modifies this
      ensures Valid()
      ensures r.walletAddress == walletAddress && r.text == text && r.createdAt == now
      ensures forall k :: 0 <= k < |old(notes)| ==> old(notes)[k].id != r.id
      ensures notes == old(notes) + [Note(r.id, walletAddress, text, now)]
    {
      var note := Note(nextId, walletAddress, text, now);
      notes := notes + [note];
      nextId := nextId + 1;
      r := ToResponse(note);
    }

    /** `getNotesByWalletAddress`: exactly the wallet's notes, newest first. */
    function NotesByWalletAddress(walletAddress: string): (r: seq<NoteResponse>)
      reads this
      ensures NewestFirst(r)
      ensures multiset(r) == multiset(Responses(OwnedBy(notes, walletAddress)))
    {
      SortNewestFirst(Responses(OwnedBy(notes, walletAddress)))
    }

    /** `updateNote`: replaces the text of the caller's own note. */
    method UpdateNote(noteId: NoteId, walletAddress: string, text: string) returns (r: Result<NoteResponse, ServiceError>)
      requires Valid()
      modifies this
      ensures Valid() && nextId == old(nextId)
      ensures (forall k :: 0 <= k < |old(notes)| ==> old(notes)[k].id != noteId) ==>
        r == Err(NoteNotFound) && notes == old(notes)
      ensures forall k :: 0 <= k < |old(notes)| && old(notes)[k].id == noteId ==>
        if old(notes)[k].walletAddress != walletAddress then
          r == Err(NotYourNote) && notes == old(notes)
        else
          && notes == old(notes)[k := old(notes)[k].(text := text)]
          && r == Ok(NoteResponse(noteId, walletAddress, text, old(notes)[k].createdAt))
    {
      var found := IndexOfId(notes, noteId);
      if found.None? {
        return Err(NoteNotFound);
      }
      var k := found.value;
      var note := notes[k];
      if note.walletAddress != walletAddress {
        return Err(NotYourNote);
      }
      note := note.(text := text);
      notes := notes[k := note];
      r := Ok(ToResponse(note));
    }

    /** `deleteNote`: removes the caller's own note. */
    method DeleteNote(noteId: NoteId, walletAddress: string) returns (r: Result<(), ServiceError>)
      requires Valid()
      modifies this
      ensures Valid() && nextId == old(nextId)
      ensures (forall k :: 0 <= k < |old(notes)| ==> !(old(notes)[k].id == noteId && old(notes)[k].walletAddress == walletAddress)) ==>
        r == Err(NotFoundOrNoPermission) && notes == old(notes)
      ensures forall k :: 0 <= k < |old(notes)| && old(notes)[k].id == noteId && old(notes)[k].walletAddress == walletAddress ==>
        r == Ok(()) && notes == old(notes)[..k] + old(notes)[k + 1..]
    {
      var found := IndexOfId(notes, noteId);
      if found.None? || notes[found.value].walletAddress != walletAddress {
        return Err(NotFoundOrNoPermission);
      }
      var k := found.value;
      notes := notes[..k] + notes[k + 1..];
      r := Ok(());
    }
  }
}
