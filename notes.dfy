/** The `notes` table of `notes.db` and what each SQL statement issued by
    the store does to it. The SQL engine is abstracted to a sequence of rows
    kept in rowid order (the order SQLite stores an `INTEGER PRIMARY KEY`
    table in) plus the AUTOINCREMENT counter; timestamps are ticks of an
    abstract, non-decreasing clock standing in for `CURRENT_TIMESTAMP`. */
module Notes {
  import opened Seqs
  import opened Text
  import opened SqlLike

  /** One row: `id INTEGER PRIMARY KEY AUTOINCREMENT, title TEXT NOT NULL,
      content TEXT NOT NULL, created_at, updated_at`. */
  datatype Note = Note(id: int, title: string, content: string, createdAt: nat, updatedAt: nat)

  datatype Option<T> = None | Some(value: T)

  /** Row order in storage: strictly ascending ids (so ids are unique). */
  predicate IdBefore(a: Note, b: Note)
  {
    a.id < b.id
  }

  /** Result order of `ORDER BY updated_at DESC`: no row is newer than one
      listed before it. */
  predicate SortedNewerFirst(s: seq<Note>)
  {
    forall i, j :: 0 <= i < j < |s| ==> s[i].updatedAt >= s[j].updatedAt
  }

  /** What every state of the table satisfies: ids unique and in rowid order,
      every id issued (positive and below the AUTOINCREMENT counter `nextId`),
      and `created_at <= updated_at <= clock`. */
  predicate TableInv(rows: seq<Note>, nextId: int, clock: nat)
  {
    && 1 <= nextId
    && Ordered(rows, IdBefore)
    && forall n :: n in rows ==> 0 < n.id < nextId && n.createdAt <= n.updatedAt <= clock
  }

  // ---------------------------------------------------------------------
  // SELECT * FROM notes WHERE id = ?   (first row, as getFirstAsync returns)

  function Find(rows: seq<Note>, id: int): (r: Option<Note>)
    ensures r.Some? ==> r.value in rows && r.value.id == id
    ensures r.None? <==> forall n :: n in rows ==> n.id != id
  {
    if rows == [] then None
    else if rows[0].id == id then Some(rows[0])
    else Find(rows[1..], id)
  }

  /** Number of rows whose id is `id`: the `changes` an UPDATE or DELETE
      `WHERE id = ?` reports. */
  function CountId(rows: seq<Note>, id: int): (k: nat)
    ensures k <= |rows|
    ensures k == 0 <==> Find(rows, id).None?
  {
    if rows == [] then 0
    else (if rows[0].id == id then 1 else 0) + CountId(rows[1..], id)
  }

  /** With unique ids, a statement `WHERE id = ?` touches at most one row. */
  lemma {:induction false} CountIdAtMostOne(rows: seq<Note>, nextId: int, clock: nat, id: int)
    requires TableInv(rows, nextId, clock)
    ensures CountId(rows, id) <= 1
    ensures CountId(rows, id) == 1 <==> Find(rows, id).Some?
  {
    if rows != [] {
      assert TableInv(rows[1..], nextId, clock) by {
        forall i, j | 0 <= i < j < |rows[1..]| ensures IdBefore(rows[1..][i], rows[1..][j]) {
          assert IdBefore(rows[i + 1], rows[j + 1]);
        }
      }
      CountIdAtMostOne(rows[1..], nextId, clock, id);
      if rows[0].id == id {
        forall n | n in rows[1..] ensures n.id != id {
          var k :| 0 <= k < |rows[1..]| && rows[1..][k] == n;
          assert IdBefore(rows[0], rows[k + 1]);
        }
      }
    }
  }

  // ---------------------------------------------------------------------
  // INSERT INTO notes (title, content) VALUES (?, ?)

  /** The table after inserting a row with id `id`, both timestamps `now`. */
  function Insert(rows: seq<Note>, id: int, title: string, content: string, now: nat): seq<Note>
  {
    rows + [Note(id, title, content, now, now)]
  }

  /** Inserting under the AUTOINCREMENT counter at a time no earlier than the
      clock keeps the invariant with the counter advanced by one. */
  lemma InsertKeepsInv(rows: seq<Note>, nextId: int, clock: nat, title: string, content: string, now: nat)
    requires TableInv(rows, nextId, clock) && clock <= now
    ensures TableInv(Insert(rows, nextId, title, content, now), nextId + 1, now)
  {
    var r := Insert(rows, nextId, title, content, now);
    forall i, j | 0 <= i < j < |r| ensures IdBefore(r[i], r[j]) {
      if j == |rows| {
        assert r[i] in rows;
      } else {
        assert IdBefore(rows[i], rows[j]);
      }
    }
  }

  /** After the insert, fetching by the new id gives the new row, and every
      other id fetches what it fetched before. */
  lemma {:induction false} FindAfterInsert(rows: seq<Note>, nextId: int, clock: nat, title: string, content: string, now: nat, id: int)
    requires TableInv(rows, nextId, clock)
    ensures Find(Insert(rows, nextId, title, content, now), id)
         == if id == nextId then Some(Note(nextId, title, content, now, now)) else Find(rows, id)
  {
    if rows == [] {
      assert Insert(rows, nextId, title, content, now) == [Note(nextId, title, content, now, now)];
    } else {
      assert TableInv(rows[1..], nextId, clock) by {
        forall i, j | 0 <= i < j < |rows[1..]| ensures IdBefore(rows[1..][i], rows[1..][j]) {
          assert IdBefore(rows[i + 1], rows[j + 1]);
        }
      }
      FindAfterInsert(rows[1..], nextId, clock, title, content, now, id);
      assert Insert(rows, nextId, title, content, now)[1..] == Insert(rows[1..], nextId, title, content, now);
    }
  }

  // ---------------------------------------------------------------------
  // UPDATE notes SET title = ?, content = ?, updated_at = CURRENT_TIMESTAMP WHERE id = ?

  /** The row with its user-editable fields replaced and `updated_at` refreshed. */
  function Touch(n: Note, title: string, content: string, now: nat): Note
  {
    n.(title := title, content := content, updatedAt := now)
  }

  function Update(rows: seq<Note>, id: int, title: string, content: string, now: nat): (r: seq<Note>)
    ensures |r| == |rows|
  {
    seq(|rows|, i requires 0 <= i < |rows| =>
      if rows[i].id == id then Touch(rows[i], title, content, now) else rows[i])
  }

  /** The update keeps every id and every `created_at` (so the storage order),
      and with a clock that has not gone back it keeps the invariant. */
  lemma UpdateKeepsInv(rows: seq<Note>, nextId: int, clock: nat, id: int, title: string, content: string, now: nat)
    requires TableInv(rows, nextId, clock) && clock <= now
    ensures TableInv(Update(rows, id, title, content, now), nextId, now)
  {
    var r := Update(rows, id, title, content, now);
    forall i, j | 0 <= i < j < |r| ensures IdBefore(r[i], r[j]) {
      assert IdBefore(rows[i], rows[j]);
    }
    forall n | n in r ensures 0 < n.id < nextId && n.createdAt <= n.updatedAt <= now {
      var k :| 0 <= k < |r| && r[k] == n;
      assert rows[k] in rows;
    }
  }

  /** Fetching after an update: the updated id gives the old row with the new
      title and content and `updated_at = now` (same id and `created_at`); a
      missing id stays missing; every other id is unaffected. */
  lemma {:induction false} FindAfterUpdate(rows: seq<Note>, id: int, title: string, content: string, now: nat, other: int)
    ensures Find(Update(rows, id, title, content, now), id)
         == match Find(rows, id)
            case None => None
            case Some(n) => Some(Touch(n, title, content, now))
    ensures other != id ==> Find(Update(rows, id, title, content, now), other) == Find(rows, other)
  {
    if rows != [] {
      FindAfterUpdate(rows[1..], id, title, content, now, other);
      assert Update(rows, id, title, content, now)[1..] == Update(rows[1..], id, title, content, now);
    }
  }

  // ---------------------------------------------------------------------
  // DELETE FROM notes WHERE id = ?

  function Delete(rows: seq<Note>, id: int): (r: seq<Note>)
    ensures forall n :: n in r <==> n in rows && n.id != id
    ensures IsSubsequence(r, rows)
    ensures Ordered(rows, IdBefore) ==> Ordered(r, IdBefore)
  {
    var keep := (n: Note) => n.id != id;
    FilterIsSubsequence(rows, keep);
    FilterKeepsOrder(rows, keep, IdBefore);
    Filter(rows, keep)
  }

  /** Deleting keeps the invariant (the counter is not rolled back). */
  lemma DeleteKeepsInv(rows: seq<Note>, nextId: int, clock: nat, id: int)
    requires TableInv(rows, nextId, clock)
    ensures TableInv(Delete(rows, id), nextId, clock)
  {
  }

  /** Exactly the rows with that id go: as many as `changes` reports; the id
      then fetches nothing, and every other id fetches what it did before. */
  lemma {:induction false} FindAfterDelete(rows: seq<Note>, id: int, other: int)
    ensures |Delete(rows, id)| == |rows| - CountId(rows, id)
    ensures Find(Delete(rows, id), id) == None
    ensures other != id ==> Find(Delete(rows, id), other) == Find(rows, other)
  {
    if rows != [] {
      FindAfterDelete(rows[1..], id, other);
      if rows[0].id != id {
        assert Delete(rows, id) == [rows[0]] + Delete(rows[1..], id);
      } else {
        assert Delete(rows, id) == Delete(rows[1..], id);
      }
    }
  }

  /** AUTOINCREMENT never hands out a deleted id again: the next insert after
      deleting `id` takes the counter, which is above `id`, so `id` still
      fetches nothing. */
  lemma DeletedIdNotReissued(rows: seq<Note>, nextId: int, clock: nat, id: int, title: string, content: string, now: nat)
    requires TableInv(rows, nextId, clock)
    requires Find(rows, id).Some?
    ensures id < nextId
    ensures Find(Insert(Delete(rows, id), nextId, title, content, now), id) == None
  {
    DeleteKeepsInv(rows, nextId, clock, id);
    FindAfterDelete(rows, id, id);
    FindAfterInsert(Delete(rows, id), nextId, clock, title, content, now, id);
  }

  // ---------------------------------------------------------------------
  // ... ORDER BY updated_at DESC

  /** Place `n` before the first row it is not older than. */
  function InsertNewerFirst(n: Note, s: seq<Note>): (r: seq<Note>)
    ensures multiset(r) == multiset(s) + multiset{n}
    ensures forall x :: x in r <==> x == n || x in s
  {
    if s == [] then [n]
    else if s[0].updatedAt <= n.updatedAt then [n] + s
    else
      assert s == [s[0]] + s[1..];
      [s[0]] + InsertNewerFirst(n, s[1..])
  }

  lemma {:induction false} InsertNewerFirstSorted(n: Note, s: seq<Note>)
    requires SortedNewerFirst(s)
    ensures SortedNewerFirst(InsertNewerFirst(n, s))
  {
    if s != [] && s[0].updatedAt > n.updatedAt {
      var tail := InsertNewerFirst(n, s[1..]);
      assert SortedNewerFirst(s[1..]) by {
        forall i, j | 0 <= i < j < |s[1..]| ensures s[1..][i].updatedAt >= s[1..][j].updatedAt {
          assert s[1..][i] == s[i + 1] && s[1..][j] == s[j + 1];
        }
      }
      InsertNewerFirstSorted(n, s[1..]);
      var r := [s[0]] + tail;
      forall i, j | 0 <= i < j < |r| ensures r[i].updatedAt >= r[j].updatedAt {
        if i == 0 {
          assert r[j] == tail[j - 1];
          if r[j] != n {
            assert r[j] in s[1..];
            var k :| 0 <= k < |s[1..]| && s[1..][k] == r[j];
            assert s[k + 1] == r[j];
          }
        } else {
          assert r[i] == tail[i - 1] && r[j] == tail[j - 1];
        }
      }
      assert InsertNewerFirst(n, s) == r;
    }
  }

  /** The rows as `ORDER BY updated_at DESC` returns them: a permutation of
      the table, most recently touched first. Rows with equal `updated_at`
      come out in ascending rowid order, so repeated queries agree. */
  function OrderByUpdatedDesc(rows: seq<Note>): (r: seq<Note>)
    ensures multiset(r) == multiset(rows)
    ensures SortedNewerFirst(r)
  {
    if rows == [] then []
    else
      assert rows == [rows[0]] + rows[1..];
      InsertNewerFirstSorted(rows[0], OrderByUpdatedDesc(rows[1..]));
      InsertNewerFirst(rows[0], OrderByUpdatedDesc(rows[1..]))
  }

  /** After an update at a time strictly later than every earlier write, the
      updated note heads any listing of the table sorted newest first. */
  lemma SortedAfterUpdateHasTouchedFirst(rows: seq<Note>, nextId: int, clock: nat, id: int, title: string, content: string, now: nat, listed: seq<Note>)
    requires TableInv(rows, nextId, clock) && clock < now
    requires Find(rows, id).Some?
    requires multiset(listed) == multiset(Update(rows, id, title, content, now))
    requires SortedNewerFirst(listed)
    ensures listed != [] && listed[0] == Touch(Find(rows, id).value, title, content, now)
  {
    var u := Update(rows, id, title, content, now);
    var n := Find(rows, id).value;
    var k :| 0 <= k < |rows| && rows[k] == n;
    assert u[k] == Touch(n, title, content, now);
    assert u[k] in multiset(listed);
    var j :| 0 <= j < |listed| && listed[j] == u[k];
    var top := listed[0];
    assert top.updatedAt >= now;
    assert top in multiset(u);
    var m :| 0 <= m < |u| && u[m] == top;
    assert rows[m] in rows;
    assert rows[m].id == id == rows[k].id;
    assert m == k;
  }

  /** In particular, it heads the listing `ORDER BY updated_at DESC` gives. */
  lemma UpdatedNoteListedFirst(rows: seq<Note>, nextId: int, clock: nat, id: int, title: string, content: string, now: nat)
    requires TableInv(rows, nextId, clock) && clock < now
    requires Find(rows, id).Some?
    ensures var listed := OrderByUpdatedDesc(Update(rows, id, title, content, now));
            listed != [] && listed[0] == Touch(Find(rows, id).value, title, content, now)
  {
    var listed := OrderByUpdatedDesc(Update(rows, id, title, content, now));
    SortedAfterUpdateHasTouchedFirst(rows, nextId, clock, id, title, content, now, listed);
  }

  // ---------------------------------------------------------------------
  // SELECT * FROM notes WHERE title LIKE ? OR content LIKE ? ORDER BY updated_at DESC

  /** The WHERE clause of `searchNotes`, with `%term%` bound to both placeholders. */
  predicate MatchesTerm(term: string, n: Note)
  {
    Like(Pattern(term), n.title) || Like(Pattern(term), n.content)
  }

  /** The rows the WHERE clause selects, before ordering. */
  function Matching(rows: seq<Note>, term: string): (r: seq<Note>)
    ensures forall n :: n in r <==> n in rows && MatchesTerm(term, n)
    ensures forall n :: multiset(r)[n] == if MatchesTerm(term, n) then multiset(rows)[n] else 0
    ensures (forall n :: n in rows ==> MatchesTerm(term, n)) ==> r == rows
  {
    var keep := (n: Note) => MatchesTerm(term, n);
    FilterKeepsAll(rows, keep);
    Filter(rows, keep)
  }

  function Search(rows: seq<Note>, term: string): (r: seq<Note>)
    ensures forall n :: n in r <==> n in rows && MatchesTerm(term, n)
    ensures forall n :: multiset(r)[n] == if MatchesTerm(term, n) then multiset(rows)[n] else 0
    ensures SortedNewerFirst(r)
  {
    var r := OrderByUpdatedDesc(Matching(rows, term));
    assert forall n :: n in r <==> n in multiset(Matching(rows, term));
    r
  }

  /** An empty term lists the whole table, in the listing's own order. */
  lemma SearchEmptyTermListsAll(rows: seq<Note>)
    ensures Search(rows, "") == OrderByUpdatedDesc(rows)
  {
    forall n | n in rows ensures MatchesTerm("", n) {
      EmptyTermMatchesAll(n.title);
    }
  }

  /** For a term without `%` or `_`, search is ASCII-case-insensitive
      substring search over the title or the content. */
  lemma SearchIsFoldedSubstring(rows: seq<Note>, term: string, n: Note)
    requires WildcardFree(term)
    ensures n in Search(rows, term)
        <==> n in rows && (Contains(Lower(n.title), Lower(term)) || Contains(Lower(n.content), Lower(term)))
  {
    PatternIsFoldedContains(term, n.title);
    PatternIsFoldedContains(term, n.content);
  }
}
