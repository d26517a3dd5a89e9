/** The note store of `src/database/database.js`: the `Database` class held
    as a process-wide singleton, with its `initialized` flag and the
    module-level `db` handle (here the field `handleOpen`, true when `db` is
    not null). The contents of `notes.db` are the field `file`; every
    statement the store issues is given the meaning `Notes` defines.

    What the environment decides is passed in: the platform, the outcome of
    opening the file and creating the table (`InitOutcome`, consulted only
    when `init` actually runs), and how far the clock advanced before a
    write (`elapsed`; the write's `CURRENT_TIMESTAMP` is the advanced clock). */
module Database {
  import opened Notes

  /** `Platform.OS === 'web'` or not. */
  datatype Platform = Web | NativeOS

  /** How a run of `init` on a native platform ends. `CreateFails` leaves the
      freshly opened handle in `db` although `initialized` stays false. */
  datatype InitOutcome = OpenFails | CreateFails | Succeeds

  /** Failures surfaced to callers: "База данных недоступна" (`db` is null),
      "Заметка не найдена" (no row with that id), and the SQL error raised
      when a statement runs on an open handle whose `notes` table was never
      created. */
  datatype Error = Unavailable | NotFound | QueryFailed

  datatype Result<T> = Ok(value: T) | Err(error: Error)

  /** The modes the store can be seen to be in. */
  datatype Mode = Uninitialized | Native | Fallback

  /** The `notes.db` file: whether the table exists, its rows in rowid order,
      and the AUTOINCREMENT counter (one past the largest id ever issued). */
  datatype DbFile = DbFile(tableExists: bool, rows: seq<Note>, nextId: int)

  predicate FileInv(f: DbFile, clock: nat)
  {
    TableInv(f.rows, f.nextId, clock) && (!f.tableExists ==> f.rows == [] && f.nextId == 1)
  }

  class NoteStore {
    const platform: Platform
    var initialized: bool
    var handleOpen: bool
    var file: DbFile
    var clock: nat

    ghost predicate Valid()
      reads this
    {
      && FileInv(file, clock)
      && (platform == Web ==> !handleOpen)
      && (initialized && platform == NativeOS ==> handleOpen && file.tableExists)
    }

    ghost function CurrentMode(): Mode
      reads this
    {
      if !initialized then Uninitialized
      else if handleOpen then Native
      else Fallback
    }

    /** Fallback mode happens only on the web, and native mode always has the
        table in place. */
    lemma ModeMatchesPlatform()
      requires Valid()
      ensures CurrentMode() == Fallback ==> platform == Web
      ensures CurrentMode() == Native ==> platform == NativeOS && file.tableExists
    {
    }

    /** What one `ensureInitialized` call does to the flag, the handle and the
        table's existence: nothing once `initialized` is true; otherwise one
        run of `init` with the given outcome. */
    twostate predicate InitEffect(outcome: InitOutcome)
      reads this
    {
      if old(initialized) then
        && initialized
        && handleOpen == old(handleOpen)
        && file.tableExists == old(file.tableExists)
      else
        && initialized == (platform == Web || outcome == Succeeds)
        && handleOpen == (old(handleOpen) || (platform == NativeOS && outcome != OpenFails))
        && file.tableExists == (old(file.tableExists) || (platform == NativeOS && outcome == Succeeds))
    }

    /** `new Database()`: the flag starts false, `db` starts null, and `init`
        runs once (to completion: its overlap with early callers is not
        modelled). `stored` is what `notes.db` already holds. */
    constructor (platform: Platform, stored: DbFile, clock: nat, outcome: InitOutcome)
      requires FileInv(stored, clock)
      ensures Valid()
      ensures this.platform == platform && this.clock == clock
      ensures initialized == (platform == Web || outcome == Succeeds)
      ensures handleOpen == (platform == NativeOS && outcome != OpenFails)
      ensures file == stored.(tableExists := stored.tableExists || (platform == NativeOS && outcome == Succeeds))
    {
      this.platform := platform;
      initialized := false;
      handleOpen := false;
      file := stored;
      this.clock := clock;
      new;
      Init(outcome);
    }

    /** `init`: on the web, mark the store initialized and leave `db` null;
        elsewhere open `notes.db` (which sets `db`), then create the table if
        it does not exist, and mark the store initialized only when both
        steps succeed. A failure is logged and leaves the flag as it was. */
    method Init(outcome: InitOutcome)
      requires Valid()
      modifies this
      ensures Valid()
      ensures initialized == (old(initialized) || platform == Web || outcome == Succeeds)
      ensures handleOpen == (old(handleOpen) || (platform == NativeOS && outcome != OpenFails))
      ensures file == old(file).(tableExists := old(file.tableExists) || (platform == NativeOS && outcome == Succeeds))
      ensures clock == old(clock)
    {
      if platform != Web {
        match outcome
        case OpenFails =>
        case CreateFails =>
          handleOpen := true;
        case Succeeds =>
          handleOpen := true;
          file := file.(tableExists := true);
          initialized := true;
      } else {
        initialized := true;
      }
    }

    /** `ensureInitialized`: re-run `init` while the flag is false; once it is
        true, `init` is never run again. */
    method EnsureInitialized(outcome: InitOutcome)
      requires Valid()
      modifies this
      ensures Valid()
      ensures InitEffect(outcome)
      ensures old(initialized) ==> file == old(file)
      ensures file.rows == old(file.rows) && file.nextId == old(file.nextId) && clock == old(clock)
    {
      if !initialized {
        Init(outcome);
      }
    }

    /** `addNote`: INSERT one row with both timestamps set to now and return
        its id, the AUTOINCREMENT counter, which is above every id issued
        before (including those of deleted rows). */
    method AddNote(title: string, content: string, outcome: InitOutcome, elapsed: nat) returns (r: Result<int>)
      requires Valid()
      modifies this
      ensures Valid()
      ensures InitEffect(outcome)
      ensures !handleOpen ==> r == Err(Unavailable)
      ensures handleOpen && !file.tableExists ==> r == Err(QueryFailed)
      ensures handleOpen && file.tableExists ==> r == Ok(old(file.nextId))
      ensures r.Ok? ==> forall n :: n in old(file.rows) ==> n.id < r.value
      ensures r.Ok? ==> && clock == old(clock) + elapsed
                        && file.rows == Insert(old(file.rows), r.value, title, content, clock)
                        && file.nextId == r.value + 1
      ensures r.Err? ==> file.rows == old(file.rows) && file.nextId == old(file.nextId) && clock == old(clock)
    {
      EnsureInitialized(outcome);
      if !handleOpen {
        return Err(Unavailable);
      }
      if !file.tableExists {
        return Err(QueryFailed);
      }
      clock := clock + elapsed;
      var id := file.nextId;
      InsertKeepsInv(file.rows, id, old(clock), title, content, clock);
      file := file.(rows := Insert(file.rows, id, title, content, clock), nextId := id + 1);
      r := Ok(id);
    }

    /** `getNotes`: every row, most recently updated first; an empty list,
        not an error, while `db` is null. */
    method GetNotes(outcome: InitOutcome) returns (r: Result<seq<Note>>)
      requires Valid()
      modifies this
      ensures Valid()
      ensures InitEffect(outcome)
      ensures file.rows == old(file.rows) && file.nextId == old(file.nextId) && clock == old(clock)
      ensures !handleOpen ==> r == Ok([])
      ensures handleOpen && !file.tableExists ==> r == Err(QueryFailed)
      ensures handleOpen && file.tableExists ==>
                && r == Ok(OrderByUpdatedDesc(file.rows))
                && multiset(r.value) == multiset(file.rows) && SortedNewerFirst(r.value)
    {
      EnsureInitialized(outcome);
      if !handleOpen {
        return Ok([]);
      }
      if !file.tableExists {
        return Err(QueryFailed);
      }
      r := Ok(OrderByUpdatedDesc(file.rows));
    }

    /** `getNote(id)`: the row with that id, NotFound when there is none,
        Unavailable while `db` is null. */
    method GetNote(id: int, outcome: InitOutcome) returns (r: Result<Note>)
      requires Valid()
      modifies this
      ensures Valid()
      ensures InitEffect(outcome)
      ensures file.rows == old(file.rows) && file.nextId == old(file.nextId) && clock == old(clock)
      ensures !handleOpen ==> r == Err(Unavailable)
      ensures handleOpen && !file.tableExists ==> r == Err(QueryFailed)
      ensures handleOpen && file.tableExists ==>
                (r.Ok? ==> r.value in file.rows && r.value.id == id) &&
                (r == Err(NotFound) <==> forall n :: n in file.rows ==> n.id != id) &&
                (r.Ok? || r == Err(NotFound))
    {
      EnsureInitialized(outcome);
      if !handleOpen {
        return Err(Unavailable);
      }
      if !file.tableExists {
        return Err(QueryFailed);
      }
      match Find(file.rows, id)
      case Some(n) => r := Ok(n);
      case None => r := Err(NotFound);
    }

    /** `updateNote`: UPDATE the row with that id (new title and content,
        `updated_at` refreshed) and report how many rows changed; an unknown
        id changes nothing and is not an error. */
    method UpdateNote(id: int, title: string, content: string, outcome: InitOutcome, elapsed: nat) returns (r: Result<nat>)
      requires Valid()
      modifies this
      ensures Valid()
      ensures InitEffect(outcome)
      ensures file.nextId == old(file.nextId)
      ensures !handleOpen ==> r == Err(Unavailable)
      ensures handleOpen && !file.tableExists ==> r == Err(QueryFailed)
      ensures handleOpen && file.tableExists ==>
                && clock == old(clock) + elapsed
                && file.rows == Update(old(file.rows), id, title, content, clock)
                && r == Ok(CountId(old(file.rows), id))
                && r.value <= 1
      ensures r.Err? ==> file.rows == old(file.rows) && clock == old(clock)
    {
      EnsureInitialized(outcome);
      if !handleOpen {
        return Err(Unavailable);
      }
      if !file.tableExists {
        return Err(QueryFailed);
      }
      var before := file.rows;
      clock := clock + elapsed;
      UpdateKeepsInv(before, file.nextId, old(clock), id, title, content, clock);
      CountIdAtMostOne(before, file.nextId, old(clock), id);
      file := file.(rows := Update(before, id, title, content, clock));
      r := Ok(CountId(before, id));
    }

    /** `deleteNote`: DELETE the row with that id and report how many rows
        went; an unknown id removes nothing and is not an error. The
        AUTOINCREMENT counter is kept, so the id is never issued again. */
    method DeleteNote(id: int, outcome: InitOutcome) returns (r: Result<nat>)
      requires Valid()
      modifies this
      ensures Valid()
      ensures InitEffect(outcome)
      ensures file.nextId == old(file.nextId) && clock == old(clock)
      ensures !handleOpen ==> r == Err(Unavailable)
      ensures handleOpen && !file.tableExists ==> r == Err(QueryFailed)
      ensures handleOpen && file.tableExists ==>
                && file.rows == Delete(old(file.rows), id)
                && r == Ok(CountId(old(file.rows), id))
                && r.value <= 1
      ensures r.Err? ==> file.rows == old(file.rows)
    {
      EnsureInitialized(outcome);
      if !handleOpen {
        return Err(Unavailable);
      }
      if !file.tableExists {
        return Err(QueryFailed);
      }
      var before := file.rows;
      DeleteKeepsInv(before, file.nextId, clock, id);
      CountIdAtMostOne(before, file.nextId, clock, id);
      file := file.(rows := Delete(before, id));
      r := Ok(CountId(before, id));
    }

    /** `searchNotes(term)`: the rows whose title or content is LIKE
        `%term%`, most recently updated first; an empty list while `db` is
        null. */
    method SearchNotes(term: string, outcome: InitOutcome) returns (r: Result<seq<Note>>)
      requires Valid()
      modifies this
      ensures Valid()
      ensures InitEffect(outcome)
      ensures file.rows == old(file.rows) && file.nextId == old(file.nextId) && clock == old(clock)
      ensures !handleOpen ==> r == Ok([])
      ensures handleOpen && !file.tableExists ==> r == Err(QueryFailed)
      ensures handleOpen && file.tableExists ==>
                && r == Ok(Search(file.rows, term))
                && (forall n :: n in r.value <==> n in file.rows && MatchesTerm(term, n))
                && (forall n :: multiset(r.value)[n] == if MatchesTerm(term, n) then multiset(file.rows)[n] else 0)
                && SortedNewerFirst(r.value)
    {
      EnsureInitialized(outcome);
      if !handleOpen {
        return Ok([]);
      }
      if !file.tableExists {
        return Err(QueryFailed);
      }
      r := Ok(Search(file.rows, term));
    }
  }

  /** Adding to an empty table on a device gives id 1, and fetching id 1
      gives the note with both timestamps equal. */
  method AddThenGet()
  {
    var store := new NoteStore(NativeOS, DbFile(false, [], 1), 0, Succeeds);
    var a := store.AddNote("Groceries", "Milk, eggs", Succeeds, 1);
    assert a == Ok(1);
    assert store.file.rows == [Note(1, "Groceries", "Milk, eggs", 1, 1)];
    var g := store.GetNote(1, Succeeds);
    assert g == Ok(Note(1, "Groceries", "Milk, eggs", 1, 1));
  }

  /** Updating the older of two notes a tick later puts it first in the next
      listing; deleting an id that was never issued reports zero rows. */
  method UpdateMovesToFront(store: NoteStore)
    requires store.Valid() && store.initialized && store.platform == NativeOS
    requires store.file.rows == [Note(1, "Groceries", "Milk, eggs", 1, 1), Note(2, "Work", "Call Anna", 2, 2)]
    requires store.file.nextId == 3 && store.clock == 2
    modifies store
  {
    var rows := store.file.rows;
    var u := store.UpdateNote(1, "Groceries", "Milk, eggs, bread", Succeeds, 1);
    assert u == Ok(1);
    var l := store.GetNotes(Succeeds);
    SortedAfterUpdateHasTouchedFirst(rows, 3, 2, 1, "Groceries", "Milk, eggs, bread", 3, l.value);
    assert l.Ok? && l.value != [] && l.value[0].id == 1;
    var d := store.DeleteNote(999, Succeeds);
    assert d == Ok(0);
  }
}
