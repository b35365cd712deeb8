/** The in-memory note store: a dictionary from filename to note, with the dictionary's insertion order. */
module Store {
  import opened Notes
  import opened KeyOrder

  /** The store's invariant: the key order lists each stored filename exactly once, and every note sits under its own filename. */
  ghost predicate Consistent(db: map<string, Note>, order: seq<string>) {
    && Distinct(order)
    && (forall k :: k in db <==> k in order)
    && (forall k :: k in db ==> db[k].filename == k)
  }

  /** The stored notes read off in key order: the dictionary's list of values. */
  function Listing(db: map<string, Note>, order: seq<string>): (notes: seq<Note>)
    requires forall k :: k in order ==> k in db
    ensures |notes| == |order|
    ensures forall i :: 0 <= i < |order| ==> notes[i] == db[order[i]]
  {
    if order == [] then [] else [db[order[0]]] + Listing(db, order[1..])
  }

  /** A consistent store holds as many notes as its key order has entries. */
  lemma StoreSize(db: map<string, Note>, order: seq<string>)
    requires Consistent(db, order)
    ensures |db| == |order|
  {
    DistinctCardinality(order);
    var keys := set x | x in order;
    assert db.Keys == keys;
    assert |db| == |db.Keys|;
  }

  /** In a consistent store the listing holds one note per stored filename, each note being the one stored under its filename. */
  lemma ListingCoversStore(db: map<string, Note>, order: seq<string>)
    requires Consistent(db, order)
    ensures |Listing(db, order)| == |db|
    ensures forall k :: k in db ==> db[k] in Listing(db, order)
    ensures forall n :: n in Listing(db, order) ==> n.filename in db && db[n.filename] == n
  {
    var notes := Listing(db, order);
    StoreSize(db, order);
    forall k | k in db ensures db[k] in notes {
      var i :| 0 <= i < |order| && order[i] == k;
      assert notes[i] == db[k];
    }
    forall n | n in notes ensures n.filename in db && db[n.filename] == n {
      var i :| 0 <= i < |notes| && notes[i] == n;
      assert order[i] in db;
    }
  }

  /** Inserting a new filename at the end of the order appends its note at the end of the listing. */
  lemma ListingAfterInsert(db: map<string, Note>, order: seq<string>, k: string, n: Note)
    requires forall x :: x in order ==> x in db
    requires k !in order
    ensures Listing(db[k := n], order + [k]) == Listing(db, order) + [n]
  {
  }

  /** Replacing the note under a stored filename replaces that one entry of the listing, at the filename's position. */
  lemma ListingAfterReplace(db: map<string, Note>, order: seq<string>, i: nat, n: Note)
    requires forall x :: x in order ==> x in db
    requires Distinct(order) && i < |order|
    ensures Listing(db[order[i] := n], order) == Listing(db, order)[i := n]
  {
    var m := db[order[i] := n];
    var before, after := Listing(db, order), Listing(m, order);
    var expected := before[i := n];
    assert |after| == |expected|;
    forall j | 0 <= j < |order| ensures after[j] == expected[j] {
      if j == i {
        assert after[j] == m[order[i]];
      } else {
        assert order[j] != order[i];
        assert after[j] == m[order[j]] == db[order[j]] == before[j];
      }
    }
    assert after == expected;
  }

  /** Removing a stored filename removes exactly its note from the listing; the others keep their relative order. */
  lemma ListingAfterRemove(db: map<string, Note>, order: seq<string>, i: nat)
    requires forall x :: x in order ==> x in db
    requires Distinct(order) && i < |order|
    ensures forall x :: x in Without(order, order[i]) ==> x in db - {order[i]}
    ensures Listing(db - {order[i]}, Without(order, order[i]))
         == Listing(db, order)[..i] + Listing(db, order)[i + 1..]
  {
    var k := order[i];
    WithoutSplit(order, i);
    var m := db - {k};
    var rest := order[..i] + order[i + 1..];
    assert forall x :: x in rest ==> x in m;
    var before, after := Listing(db, order), Listing(m, rest);
    var expected := before[..i] + before[i + 1..];
    assert |after| == |expected| == |order| - 1;
    forall j | 0 <= j < |rest| ensures after[j] == expected[j] {
      var src := if j < i then j else j + 1;
      assert rest[j] == order[src] && expected[j] == before[src];
      assert after[j] == m[order[src]] == db[order[src]];
    }
    assert after == expected;
  }

  /** Once a filename is removed, no note listed afterwards carries it. */
  lemma RemovedNotListed(db: map<string, Note>, order: seq<string>, k: string)
    requires Consistent(db, order)
    ensures forall x :: x in Without(order, k) ==> x in db - {k}
    ensures forall n :: n in Listing(db - {k}, Without(order, k)) ==> n.filename != k
  {
  }

  /** Inserting a note under a new filename that matches its own filename keeps the store consistent. */
  lemma ConsistentAfterInsert(db: map<string, Note>, order: seq<string>, n: Note)
    requires Consistent(db, order)
    requires n.filename !in db
    ensures Consistent(db[n.filename := n], order + [n.filename])
  {
  }

  /** Replacing a stored note by one with the same filename keeps the store consistent. */
  lemma ConsistentAfterReplace(db: map<string, Note>, order: seq<string>, n: Note)
    requires Consistent(db, order)
    requires n.filename in db
    ensures Consistent(db[n.filename := n], order)
  {
  }

  /** Removing a filename from both the dictionary and the order keeps the store consistent. */
  lemma ConsistentAfterRemove(db: map<string, Note>, order: seq<string>, k: string)
    requires Consistent(db, order)
    ensures Consistent(db - {k}, Without(order, k))
  {
    WithoutDistinct(order, k);
  }

  /** Deleting a note just created under a new filename gives back the store as it was, order included. */
  lemma InsertThenRemove(db: map<string, Note>, order: seq<string>, n: Note)
    requires Consistent(db, order)
    requires n.filename !in db
    ensures db[n.filename := n] - {n.filename} == db
    ensures Without(order + [n.filename], n.filename) == order
  {
    var k := n.filename;
    AppendDistinct(order, k);
    WithoutSplit(order + [k], |order|);
    assert (order + [k])[..|order|] == order;
  }

  /** The note store held by the service: `db` is the dictionary, `order` its keys in insertion order. */
  class NoteStore {
    var db: map<string, Note>
    var order: seq<string>

    ghost predicate Valid()
      reads this
    {
      Consistent(db, order)
    }

    /** The store starts empty. */
    constructor ()
      ensures Valid() && db == map[] && order == []
    {
      db := map[];
      order := [];
    }

    /** Creates a note under a filename not yet in use; a filename already in use is a conflict and changes nothing. */
    method Create(filename: string, subject: string, otherInfo: string, content: string, now: Timestamp)
      returns (r: Outcome)
      requires Valid()
      modifies this
      ensures Valid()
      ensures old(filename in db) ==> r == Conflict && db == old(db) && order == old(order)
      ensures filename !in old(db) ==>
        && r == Ok(Note(filename, subject, otherInfo, content, now))
        && db == old(db)[filename := r.note]
        && order == old(order) + [filename]
    {
      if filename in db {
        return Conflict;
      }
      var note := CreateTimestampedNote(filename, subject, otherInfo, content, now);
      ConsistentAfterInsert(db, order, note);
      db := db[filename := note];
      order := order + [filename];
      r := Ok(note);
    }

    /** All stored notes, in the order their filenames were first inserted. */
    method ReadAll() returns (notes: seq<Note>)
      requires Valid()
      ensures |notes| == |order| == |db|
      ensures forall i :: 0 <= i < |notes| ==> notes[i] == db[order[i]] && notes[i].filename == order[i]
      ensures forall n :: n in notes ==> n.filename in db && db[n.filename] == n
      ensures forall k :: k in db ==> db[k] in notes
    {
      ListingCoversStore(db, order);
      notes := Listing(db, order);
    }

    /** Gives a stored note new content and a new timestamp, in place; a filename not in use is not found and changes nothing. */
    method Update(filename: string, content: string, now: Timestamp) returns (r: Outcome)
      requires Valid()
      modifies this
      ensures Valid()
      ensures order == old(order)
      ensures filename !in old(db) ==> r == NotFound && db == old(db)
      ensures filename in old(db) ==>
        && r == Ok(old(db)[filename].(content := content, timestamp := now))
        && db == old(db)[filename := r.note]
    {
      if filename !in db {
        return NotFound;
      }
      var note := Revised(db[filename], content, now);
      ConsistentAfterReplace(db, order, note);
      db := db[filename := note];
      r := Ok(note);
    }

    /** Removes a stored note and gives back the record that was stored; a filename not in use is not found and changes nothing. */
    method Delete(filename: string) returns (r: Outcome)
      requires Valid()
      modifies this
      ensures Valid()
      ensures filename !in old(db) ==> r == NotFound && db == old(db) && order == old(order)
      ensures filename in old(db) ==>
        && r == Ok(old(db)[filename])
        && db == old(db) - {filename}
        && order == Without(old(order), filename)
        && exists i :: 0 <= i < |old(order)| && old(order)[i] == filename
                       && order == old(order)[..i] + old(order)[i + 1..]
    {
      if filename !in db {
        return NotFound;
      }
      var deleted := db[filename];
      ghost var i :| 0 <= i < |order| && order[i] == filename;
      WithoutSplit(order, i);
      ConsistentAfterRemove(db, order, filename);
      db := db - {filename};
      order := Without(order, filename);
      r := Ok(deleted);
    }
  }
}
