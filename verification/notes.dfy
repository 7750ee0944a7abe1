/** The note store of `saveNote`: a map from date key to the notes filed
    under it, in insertion order. The source tells notes apart by object
    identity (`note !== editingNote`); here each note carries an `id` that
    plays that part, and a fresh id is supplied for every note created. */
module Notes {
  import opened Wrappers

  datatype Note = Note(id: nat, date: string, title: string)

  type Store = map<string, seq<Note>>

  /** `notes[key]`, with an absent key read as the empty list. */
  function NotesFor(store: Store, key: string): (r: seq<Note>)
    ensures key !in store ==> r == []
  {
    if key in store then store[key] else []
  }

  /** `bucket.filter(note => note !== target)`: every note with the target's
      identity is dropped, every other note kept in order. */
  function Without(bucket: seq<Note>, id: nat): (r: seq<Note>)
    ensures |r| <= |bucket|
    ensures forall n :: n in r ==> n in bucket && n.id != id
    ensures forall n :: n in bucket && n.id != id ==> n in r
  {
    if |bucket| == 0 then []
    else if bucket[0].id == id then Without(bucket[1..], id)
    else [bucket[0]] + Without(bucket[1..], id)
  }

  /** With identities distinct within the bucket, `Without` cuts out exactly
      the one position holding the target. */
  lemma {:induction false} WithoutCutsOne(bucket: seq<Note>, p: int)
    requires 0 <= p < |bucket| && DistinctIds(bucket)
    ensures Without(bucket, bucket[p].id) == bucket[..p] + bucket[p + 1..]
  {
    var id := bucket[p].id;
    if p == 0 {
      WithoutAbsent(bucket[1..], id);
    } else {
      assert bucket[0].id != id;
      assert DistinctIds(bucket[1..]) by {
        forall i, j | 0 <= i < j < |bucket[1..]|
          ensures bucket[1..][i].id != bucket[1..][j].id
        {
          assert bucket[1..][i] == bucket[i + 1] && bucket[1..][j] == bucket[j + 1];
        }
      }
      WithoutCutsOne(bucket[1..], p - 1);
      CutAfterHead(bucket, p);
    }
  }

  lemma CutAfterHead<T>(s: seq<T>, p: int)
    requires 0 < p < |s|
    ensures [s[0]] + (s[1..][..p - 1] + s[1..][p..]) == s[..p] + s[p + 1..]
  {
    assert s[1..][..p - 1] == s[1..p] && s[1..][p..] == s[p + 1..];
    assert [s[0]] + s[1..p] == s[..p];
  }

  /** Removing an identity the bucket does not hold changes nothing. */
  lemma {:induction false} WithoutAbsent(bucket: seq<Note>, id: nat)
    requires forall i :: 0 <= i < |bucket| ==> bucket[i].id != id
    ensures Without(bucket, id) == bucket
  {
    if |bucket| > 0 {
      WithoutAbsent(bucket[1..], id);
      assert [bucket[0]] + bucket[1..] == bucket;
    }
  }

  ghost predicate DistinctIds(bucket: seq<Note>) {
    forall i, j :: 0 <= i < j < |bucket| ==> bucket[i].id != bucket[j].id
  }

  lemma {:induction false} WithoutKeepsDistinct(bucket: seq<Note>, id: nat)
    requires DistinctIds(bucket)
    ensures DistinctIds(Without(bucket, id))
  {
    if |bucket| > 0 {
      WithoutKeepsDistinct(bucket[1..], id);
      if bucket[0].id != id {
        HeadNotInTail(bucket);
        ConsDistinct(bucket[0], Without(bucket[1..], id));
      }
    }
  }

  lemma HeadNotInTail(bucket: seq<Note>)
    requires |bucket| > 0 && DistinctIds(bucket)
    ensures forall n :: n in bucket[1..] ==> n.id != bucket[0].id
  {
    forall n | n in bucket[1..]
      ensures n.id != bucket[0].id
    {
      var t :| 0 <= t < |bucket[1..]| && bucket[1..][t] == n;
      assert bucket[t + 1] == n;
    }
  }

  lemma ConsDistinct(x: Note, rest: seq<Note>)
    requires DistinctIds(rest) && forall n :: n in rest ==> n.id != x.id
    ensures DistinctIds([x] + rest)
  {
    var r := [x] + rest;
    forall i, j | 0 <= i < j < |r|
      ensures r[i].id != r[j].id
    {
      assert r[j] == rest[j - 1];
      if i > 0 {
        assert r[i] == rest[i - 1];
      }
    }
  }

  /** `notes[key] = notes[key].filter(note => note !== target)`, where a
      missing bucket filters to `[]`. */
  function Remove(store: Store, key: string, id: nat): (r: Store)
    ensures r.Keys == store.Keys + {key}
    ensures r[key] == Without(NotesFor(store, key), id)
    ensures forall k :: k in store && k != key ==> r[k] == store[k]
  {
    store[key := Without(NotesFor(store, key), id)]
  }

  /** `(notes[key] ||= []).push(note)`. */
  function Append(store: Store, key: string, note: Note): (r: Store)
    ensures r.Keys == store.Keys + {key}
    ensures r[key] == NotesFor(store, key) + [note]
    ensures forall k :: k in store && k != key ==> r[k] == store[k]
  {
    store[key := NotesFor(store, key) + [note]]
  }

  /** `saveNote`'s effect on the store. Without an edited note, a new note is
      appended to the `noteDate` bucket (created if absent). With one, its
      identity is first filtered out of its old bucket, then the new note is
      appended to the `noteDate` bucket, which may be that same bucket, so an
      edit in place moves the note to the end of its day. */
  function SaveNote(store: Store, editing: Option<Note>, noteDate: string, noteTitle: string, freshId: nat): (r: Store)
    ensures r.Keys == store.Keys + {noteDate} + (if editing.Some? then {editing.value.date} else {})
    ensures forall k :: k in store && k != noteDate && (editing.None? || k != editing.value.date) ==>
      r[k] == store[k]
    ensures editing.None? ==>
      r[noteDate] == NotesFor(store, noteDate) + [Note(freshId, noteDate, noteTitle)]
    ensures editing.Some? && editing.value.date != noteDate ==>
      r[editing.value.date] == Without(NotesFor(store, editing.value.date), editing.value.id) &&
      r[noteDate] == NotesFor(store, noteDate) + [Note(freshId, noteDate, noteTitle)]
    ensures editing.Some? && editing.value.date == noteDate ==>
      r[noteDate] == Without(NotesFor(store, noteDate), editing.value.id) + [Note(freshId, noteDate, noteTitle)]
  {
    var added := Note(freshId, noteDate, noteTitle);
    match editing
    case None => Append(store, noteDate, added)
    case Some(e) => Append(Remove(store, e.date, e.id), noteDate, added)
  }

  /** Every note sits under the key equal to its date. */
  ghost predicate Filed(store: Store) {
    forall k, n :: k in store && n in store[k] ==> n.date == k
  }

  /** Every identity in the store is below `next`, so `next` is fresh. */
  ghost predicate IdsBelow(store: Store, next: nat) {
    forall k, n :: k in store && n in store[k] ==> n.id < next
  }

  /** No identity occurs twice in the store. */
  ghost predicate UniqueIds(store: Store) {
    && (forall k :: k in store ==> DistinctIds(store[k]))
    && (forall k1, k2, n1, n2 ::
          k1 in store && k2 in store && k1 != k2 && n1 in store[k1] && n2 in store[k2] ==> n1.id != n2.id)
  }

  ghost predicate WellFormed(store: Store, next: nat) {
    Filed(store) && IdsBelow(store, next) && UniqueIds(store)
  }

  ghost function AllNotes(store: Store): set<Note> {
    set k, n | k in store && n in store[k] :: n
  }

  /** Filtering a bucket only ever takes notes away. */
  lemma RemoveShrinks(store: Store, key: string, id: nat)
    ensures var r := Remove(store, key, id);
      forall k, n :: k in r && n in r[k] ==> k in store && n in store[k]
  {
  }

  /** Pushing onto a bucket only adds the pushed note. */
  lemma AppendGrows(store: Store, key: string, note: Note)
    ensures var r := Append(store, key, note);
      forall k, n :: k in r && n in r[k] ==> n == note || (k in store && n in store[k])
  {
    var r := Append(store, key, note);
    forall k: string, n: Note | k in r && n in r[k] && n != note
      ensures k in store && n in store[k]
    {
      if k == key {
        assert n in NotesFor(store, key) + [note];
      }
    }
  }

  lemma RemoveKeepsWellFormed(store: Store, key: string, id: nat, next: nat)
    requires WellFormed(store, next)
    ensures WellFormed(Remove(store, key, id), next)
  {
    RemoveShrinks(store, key, id);
    WithoutKeepsDistinct(NotesFor(store, key), id);
  }

  lemma AppendKeepsWellFormed(store: Store, note: Note, next: nat)
    requires WellFormed(store, next) && note.id == next
    ensures WellFormed(Append(store, note.date, note), next + 1)
  {
    var r := Append(store, note.date, note);
    AppendGrows(store, note.date, note);
    assert Filed(r) && IdsBelow(r, next + 1);
    AppendKeepsUnique(store, note, next);
  }

  lemma AppendKeepsUnique(store: Store, note: Note, next: nat)
    requires UniqueIds(store) && IdsBelow(store, next) && note.id == next
    ensures UniqueIds(Append(store, note.date, note))
  {
    var r := Append(store, note.date, note);
    AppendGrows(store, note.date, note);
    AppendFreshKeepsDistinct(NotesFor(store, note.date), note);
    forall k1: string, k2: string, n1: Note, n2: Note | k1 in r && k2 in r && k1 != k2 && n1 in r[k1] && n2 in r[k2]
      ensures n1.id != n2.id
    {
      assert n1 == note || (k1 in store && n1 in store[k1]);
      assert n2 == note || (k2 in store && n2 in store[k2]);
    }
  }

  lemma AppendFreshKeepsDistinct(bucket: seq<Note>, added: Note)
    requires DistinctIds(bucket)
    requires forall n :: n in bucket ==> n.id < added.id
    ensures DistinctIds(bucket + [added])
  {
    var b := bucket + [added];
    forall i, j | 0 <= i < j < |b|
      ensures b[i].id != b[j].id
    {
      if j == |bucket| {
        assert b[i] in bucket;
      } else {
        assert b[i] == bucket[i] && b[j] == bucket[j];
      }
    }
  }

  /** Saving with the next fresh identity keeps every note filed under its own
      date, identities unique, and the following identity fresh. */
  lemma SaveNoteKeepsWellFormed(store: Store, editing: Option<Note>, noteDate: string, noteTitle: string, next: nat)
    requires WellFormed(store, next)
    ensures WellFormed(SaveNote(store, editing, noteDate, noteTitle, next), next + 1)
  {
    var added := Note(next, noteDate, noteTitle);
    match editing
    case None =>
      AppendKeepsWellFormed(store, added, next);
    case Some(e) =>
      RemoveKeepsWellFormed(store, e.date, e.id, next);
      AppendKeepsWellFormed(Remove(store, e.date, e.id), added, next);
  }

  lemma AppendContents(store: Store, key: string, note: Note)
    ensures AllNotes(Append(store, key, note)) == AllNotes(store) + {note}
  {
    var r := Append(store, key, note);
    AppendGrows(store, key, note);
    assert note in r[key];
    forall n | n in AllNotes(store)
      ensures n in AllNotes(r)
    {
      var k :| k in store && n in store[k];
      if k == key {
        assert n in r[key];
      } else {
        assert n in r[k];
      }
    }
  }

  /** In a well-formed store, filtering the bucket of a note that is filed
      there removes that note and no other. */
  lemma RemoveContents(store: Store, e: Note, next: nat)
    requires WellFormed(store, next) && e in AllNotes(store)
    ensures AllNotes(Remove(store, e.date, e.id)) == AllNotes(store) - {e}
  {
    RemoveDropsTarget(store, e, next);
    RemoveKeepsOthers(store, e, next);
  }

  lemma RemoveDropsTarget(store: Store, e: Note, next: nat)
    requires WellFormed(store, next) && e in AllNotes(store)
    ensures AllNotes(Remove(store, e.date, e.id)) <= AllNotes(store) - {e}
  {
    var r := Remove(store, e.date, e.id);
    RemoveShrinks(store, e.date, e.id);
    var ke :| ke in store && e in store[ke];
    assert ke == e.date;
    forall k: string, n: Note | k in r && n in r[k]
      ensures n.id != e.id
    {
      if k != e.date {
        assert n in store[k];
      }
    }
    NotesWithout(r, store, e);
  }

  /** A store whose buckets lie inside another's and hold nothing with
      `e`'s identity holds no more notes than the other minus `e`. */
  lemma NotesWithout(a: Store, b: Store, e: Note)
    requires forall k, n :: k in a && n in a[k] ==> k in b && n in b[k]
    requires forall k, n :: k in a && n in a[k] ==> n.id != e.id
    ensures AllNotes(a) <= AllNotes(b) - {e}
  {
  }

  lemma RemoveKeepsOthers(store: Store, e: Note, next: nat)
    requires WellFormed(store, next) && e in AllNotes(store)
    ensures AllNotes(store) - {e} <= AllNotes(Remove(store, e.date, e.id))
  {
    var ke :| ke in store && e in store[ke];
    assert ke == e.date;
    RemoveKeepsOthersOf(store, e);
  }

  lemma RemoveKeepsOthersOf(store: Store, e: Note)
    requires e.date in store && e in store[e.date] && DistinctIds(store[e.date])
    ensures AllNotes(store) - {e} <= AllNotes(Remove(store, e.date, e.id))
  {
    var r := Remove(store, e.date, e.id);
    forall n | n in AllNotes(store) && n != e
      ensures n in AllNotes(r)
    {
      var k :| k in store && n in store[k];
      if k == e.date {
        DistinctMembers(store[k], n, e);
        assert n in r[k];
      } else {
        assert n in r[k];
      }
    }
  }

  lemma DistinctMembers(bucket: seq<Note>, a: Note, b: Note)
    requires DistinctIds(bucket) && a in bucket && b in bucket && a != b
    ensures a.id != b.id
  {
    var i :| 0 <= i < |bucket| && bucket[i] == a;
    var j :| 0 <= j < |bucket| && bucket[j] == b;
    assert i != j;
  }

  /** In a well-formed store, saving without an edited note adds exactly the
      new note, and saving an edited note that is in the store replaces it by
      the new note; no other note appears or disappears. */
  lemma SaveNoteContents(store: Store, editing: Option<Note>, noteDate: string, noteTitle: string, next: nat)
    requires WellFormed(store, next)
    requires editing.Some? ==> editing.value in AllNotes(store)
    ensures AllNotes(SaveNote(store, editing, noteDate, noteTitle, next)) ==
      (if editing.Some? then AllNotes(store) - {editing.value} else AllNotes(store)) + {Note(next, noteDate, noteTitle)}
  {
    var added := Note(next, noteDate, noteTitle);
    match editing
    case None =>
      AppendContents(store, noteDate, added);
    case Some(e) =>
      RemoveContents(store, e, next);
      AppendContents(Remove(store, e.date, e.id), noteDate, added);
  }

  /** The two behaviours the store is meant to have: a first note on a date,
      and an edit that moves a note to another date. */
  lemma SaveNoteExamples()
    ensures NotesFor(SaveNote(map[], None, "2024-03-05", "Demo", 0), "2024-03-05") ==
      [Note(0, "2024-03-05", "Demo")]
    ensures var n := Note(0, "2024-03-05", "Demo");
      var r := SaveNote(map["2024-03-05" := [n]], Some(n), "2024-03-06", "Demo", 1);
      NotesFor(r, "2024-03-05") == [] && NotesFor(r, "2024-03-06") == [Note(1, "2024-03-06", "Demo")]
  {
  }
}
