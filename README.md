# Notes service: the note store

A model of the in-memory note store of a small HTTP notes service (`app.py`).
The service keeps one module-level dictionary from filename to note. Four handlers act on it:

- create inserts a timestamped note and refuses a filename already in use;
- read returns every stored note in the dictionary's insertion order;
- update rewrites a stored note's content and timestamp in place and refuses a missing filename;
- delete pops a stored note and returns it, and refuses a missing filename.

Layout:

- `note.dfy` (module `Notes`): the `Note` record, the handlers' `Outcome` (`Ok(note)`, `Conflict`, `NotFound`), note construction and revision, and the HTTP status of each outcome.
- `key_order.dfy` (module `KeyOrder`): key sequences without repetition, and removal of a key from one (`Without`). This is how a dictionary's insertion order changes when an entry is popped.
- `store.dfy` (module `Store`):
  - the store invariant `Consistent`: the order lists each key once, its keys are exactly the dictionary's keys, and every note sits under its own filename;
  - the listing `Listing`: the dictionary's values in key order;
  - lemmas on how each operation changes the invariant and the listing;
  - the class `NoteStore`. Its fields are `db` (the dictionary) and `order` (its keys in insertion order). Its methods `Create`, `ReadAll`, `Update` and `Delete` are the four handlers.
- `scenario.dfy` (module `Scenario`): client methods that use only the handlers' contracts. One reads the store twice. The other runs create, a repeated create, read, update, delete, a repeated delete and read on a fresh store.

The clock is a parameter. Each handler that stamps a note takes the current time `now`, as ISO-8601 text, from its caller.

Two points about rejections and timestamps:

- Here the model departs from the code. A handler rejects a request by raising `HTTPException`: status 400 for a filename in use (app.py:64), 404 for a missing note (app.py:84, app.py:99). Every handler is wrapped by `log_decorator`, whose `except Exception` (app.py:27) also catches that exception; it logs it and calls `sys.exit(1)` (app.py:32), which raises `SystemExit`. So the code produces no 400 or 404 response of its own. The model instead returns the rejection as an `Outcome` value and the store stays usable for the next call; `StatusCode` gives the status the raised exception carries. See "Left out".
- Nothing in app.py makes a refreshed timestamp later than the one it replaces: the update just reads the wall clock again (app.py:89). So no ordering of timestamps is stated.

## Model

| member | source | states |
|---|---|---|
| `Notes.CreateTimestampedNote` | app.py:43-51 | the new note carries filename, subject, other info and content exactly as given, and the current time as its timestamp |
| `Notes.Revised` | app.py:87-89 | an updated note has the new content and the new timestamp; filename, subject and other info are those of the note before; the note is unchanged exactly when both new values equal the old ones |
| `Notes.StatusCode` | app.py:63-99 | status 200 exactly for success, 400 exactly for a filename conflict, 404 exactly for a missing note |
| `KeyOrder.Without` | app.py:102 | after a pop the key order holds exactly the other keys, and it is shorter when the key was present |
| `KeyOrder.WithoutSplit` | app.py:102 | in an order without repetition, popping the key at position i closes the gap: the keys before and after i keep their relative order |
| `Store.Listing` | app.py:76 | the list of values has one entry per key of the order, and entry i is the note stored under the i-th key |
| `Store.ListingCoversStore` | app.py:74-76 | in a consistent store the listing has exactly as many notes as the store, contains every stored note, and each listed note is the one stored under its own filename |
| `Store.ListingAfterInsert` | app.py:63-76 | inserting a new filename appends its note at the end of the listing and leaves the earlier entries as they were |
| `Store.ListingAfterReplace` | app.py:87-89 | updating a stored note in place changes only its own entry of the listing, at the same position |
| `Store.ListingAfterRemove` | app.py:102 | popping a stored filename removes exactly its note from the listing; all other notes keep their relative order |
| `Store.RemovedNotListed` | app.py:98-104 | after a delete, no listed note carries the deleted filename |
| `Store.ConsistentAfterInsert` | app.py:63-68 | inserting a note under a new filename equal to its own filename, appended to the order, keeps the store invariant |
| `Store.ConsistentAfterReplace` | app.py:87-89 | replacing a stored note by one with the same filename keeps the store invariant |
| `Store.ConsistentAfterRemove` | app.py:102 | popping a key from the dictionary and the order keeps the store invariant |
| `Store.InsertThenRemove` | app.py:63-104 | deleting a note just created under a new filename restores the dictionary and the key order exactly |
| `Store.NoteStore.constructor` | app.py:37 | the store starts empty and consistent |
| `Store.NoteStore.Create` | app.py:55-70 | on a filename in use: conflict, nothing changes; otherwise the store gains exactly that key, mapped to the note built from the inputs and `now`, the key goes to the end of the order, and the returned note is the stored one; the invariant is kept |
| `Store.NoteStore.ReadAll` | app.py:74-76 | returns, without changing the store, one note per stored filename in insertion order, each the note stored under that filename; every stored note is listed |
| `Store.NoteStore.Update` | app.py:80-91 | on a missing filename: not found, nothing changes; otherwise only that note changes, getting the new content and `now` as timestamp with filename, subject and other info kept; the key order is unchanged, the stored note is returned, and the invariant is kept |
| `Store.NoteStore.Delete` | app.py:95-104 | on a missing filename: not found, nothing changes; otherwise the key leaves the dictionary and the order, the other keys keep their relative order, and the returned note is exactly the one stored before the call; the invariant is kept |
| `Scenario.ReadTwice` | app.py:74-76 | two reads with no change in between return equal lists, one note per stored filename |
| `Scenario.CreateReadUpdateDelete` | app.py:55-104 | on a fresh store: create succeeds with the given fields, a second create of the same filename conflicts (400), read lists that one note, update gives new content and timestamp, delete returns the updated note, a second delete is not found (404), and the final read is empty; the rejections are `Outcome` values, so the sequence continues past them where the code's `log_decorator` would raise `SystemExit` (see Left out) |

## Left out

- The logging wrapper `log_decorator` (app.py:12-34). It logs start, success and failure, and on any exception it calls `sys.exit(1)` (app.py:32), which raises `SystemExit`. That includes the `HTTPException` raised for a conflict or a missing note. What the server does with `SystemExit` is not shown in app.py. The model returns the rejection as an `Outcome` and does not model logging or the `SystemExit`.
- The wall clock and ISO formatting (`datetime.now().isoformat()`, app.py:44 and app.py:89). They are replaced by the `now` parameter. No ordering between timestamps is assumed or proved, because the code promises none.
- A request body that lacks a field raises `KeyError` (app.py:56-61, app.py:81, app.py:96). The model's handlers take typed arguments, so this case does not arise.
- FastAPI routing, JSON bodies, the response message strings and `uvicorn.run` (app.py:40, app.py:53, app.py:107-109). These are HTTP plumbing around the store.
- Concurrent requests. They reach the shared dictionary without a lock, and the model is sequential.
- Store.NoteStore.Update: the code mutates the stored dictionary in place, and the response refers to that same object. The model replaces the map entry by the revised note value. So it does not capture aliasing between a returned note and the stored one. The handlers serialise the note into their response, so the aliasing cannot be observed.
- Notes.Revised: its contract does not promise that the timestamp increases, because the code reads the clock without checking it.
