/** Clients of the note store: what a caller can conclude from the handlers' contracts alone. */
module Scenario {
  import opened Notes
  import opened Store

  /** Reading the store twice with nothing in between gives the same notes both times. */
  method ReadTwice(store: NoteStore) returns (first: seq<Note>, second: seq<Note>)
    requires store.Valid()
    ensures first == second
    ensures |first| == |store.db|
  {
    first := store.ReadAll();
    second := store.ReadAll();
  }

  /** The create, repeated create, read, update, delete, repeated delete, read sequence on a fresh store. */
  method CreateReadUpdateDelete(t1: Timestamp, t2: Timestamp)
    returns (created: Outcome, duplicate: Outcome, listed: seq<Note>, updated: Outcome,
             deleted: Outcome, missing: Outcome, remaining: seq<Note>)
    ensures created == Ok(Note("a.txt", "s", "i", "hello", t1)) && StatusCode(created) == 200
    ensures duplicate == Conflict && StatusCode(duplicate) == 400
    ensures listed == [Note("a.txt", "s", "i", "hello", t1)]
    ensures updated == Ok(Note("a.txt", "s", "i", "bye", t2))
    ensures deleted == updated && deleted.note.content == "bye"
    ensures missing == NotFound && StatusCode(missing) == 404
    ensures remaining == []
  {
    var store := new NoteStore();
    created := store.Create("a.txt", "s", "i", "hello", t1);
    duplicate := store.Create("a.txt", "other", "other", "other", t2);
    listed := store.ReadAll();
    updated := store.Update("a.txt", "bye", t2);
    deleted := store.Delete("a.txt");
    missing := store.Delete("a.txt");
    remaining := store.ReadAll();
  }
}
