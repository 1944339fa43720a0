/** The lock callbacks over their two backends: a table in the process, or lease rows in the
database that are read and written through their text form. */
module LockBackend {
  import opened Bytes
  import opened LockTable
  import opened LockBlob

  const I32_MAX: u32 := 0x7FFF_FFFF

  /** What the columns of the lease table can hold. */
  predicate Storable(r: PosixLockRecord) {
    r.start <= I64_MAX && (r.end.Some? ==> r.end.value <= I64_MAX) && r.pid <= I32_MAX
  }

  predicate AllStorable(rows: Records) { forall r | r in rows :: Storable(r) }

  predicate AllOwned(rows: Records, owner: u64) { forall r | r in rows :: r.owner == owner }

  /** The rows come back from their text form. */
  predicate Readable(rows: Records) { forall r | r in rows :: Accepted(r) }

  // ---- writing the owner's rows

  ghost predicate ParsesTo(lines: seq<string>, rows: Records) {
    |lines| == |rows| && forall n | 0 <= n < |lines| :: ParseFields(lines[n]) == Some(rows[n])
  }

  /** Inserts one row per line of the payload; a foreign owner or a value that does not fit its
      column fails the transaction. */
  method InsertRows(payload: string, owner: u64) returns (rows: Option<Records>)
    ensures forall rs: Records | ParsesTo(Lines(payload), rs) ::
              rows == if AllStorable(rs) && AllOwned(rs, owner) then Some(rs) else None
  {
    var lines, inserted: Records := Lines(payload), [];
    for n := 0 to |lines|
      invariant ParsesTo(lines[..n], inserted)
      invariant AllStorable(inserted) && AllOwned(inserted, owner)
    {
      var r := ParseFields(lines[n]);
      if r.None? || r.value.owner != owner || !Storable(r.value) {
        forall rs: Records | ParsesTo(lines, rs) ensures !(AllStorable(rs) && AllOwned(rs, owner)) {
          assert ParseFields(lines[n]) == Some(rs[n]) && rs[n] in rs;
        }
        return None;
      }
      inserted := inserted + [r.value];
    }
    assert lines[..|lines|] == lines;
    forall rs: Records | ParsesTo(lines, rs) ensures rs == inserted {
      forall n | 0 <= n < |lines| ensures rs[n] == inserted[n] { assert ParseFields(lines[n]) == Some(inserted[n]); }
    }
    return Some(inserted);
  }

  lemma PrintedRowsParse(rows: Records)
    ensures ParsesTo(Lines(PrintRecords(rows)), rows)
  {
    PrintedLines(rows);
    forall n | 0 <= n < |rows| ensures ParseFields(PrintRecord(rows[n])) == Some(rows[n]) { RecordRoundTrip(rows[n]); }
  }

  /** The owner's rows through their text form into the table: stored as they are exactly if they fit the columns. */
  method WriteRows(rows: Records, owner: u64) returns (inserted: Option<Records>)
    ensures inserted == if AllStorable(rows) && AllOwned(rows, owner) then Some(rows) else None
  {
    PrintedRowsParse(rows);
    inserted := InsertRows(PrintRecords(rows), owner);
  }

  /** The stored rows through their text form: read as they are exactly if the parser accepts every one. */
  method ReadRows(rows: Records) returns (records: Option<Records>)
    ensures records == if Readable(rows) then Some(rows) else None
  {
    BlobRoundTrip(rows);
    records := LockRecordsFromBlob(PrintRecords(rows));
    if records.Some? {
      PrintedLines(rows);
      forall n | 0 <= n < |rows| ensures records.value[n] == rows[n] { RecordRoundTrip(rows[n]); }
    }
  }

  // ---- what an update through the text form leads to

  datatype PgOutcome =
    | Committed  // stored and read back
    | Conflicted // refused, nothing stored
    | Rejected   // an error, nothing stored
    | Wedged     // stored, and an error because it cannot be read back

  /** The outcome, from the stored rows and the request alone. */
  function PgOutcomeOf(rows: Records, owner: u64, start: u64, end: u64, typ: i32, pid: u32): PgOutcome {
    if !Readable(rows) then Rejected
    else if typ != F_UNLCK && Conflicts(rows, owner, typ, start, end) then Conflicted
    else if LeavesUnreadable(rows, owner, start, end) then Rejected
    else if typ == F_UNLCK then Committed
    else if end > I64_MAX || start > I64_MAX || pid > I32_MAX then Rejected
    else if start > end || !(typ == F_RDLCK || typ == F_WRLCK) then Wedged
    else Committed
  }

  /** A request as the kernel sends it. */
  predicate Ordinary(start: u64, end: u64, typ: i32, pid: u32) {
    start <= end <= I64_MAX && (typ == F_RDLCK || typ == F_WRLCK || typ == F_UNLCK) && pid <= I32_MAX
  }

  /** A read request is blocked by writers, a write request by anyone, an unlock by nobody. */
  ghost predicate Blocked(records: Records, owner: u64, start: u64, end: u64, typ: i32) {
    || (typ == F_RDLCK && WriterInRange(records, owner, start, end))
    || (typ == F_WRLCK && AnyoneInRange(records, owner, start, end))
  }

  /** On readable rows an ordinary request that meets no conflict is committed, unless it reaches the
      largest file offset and its owner has an open-ended record; it is never wedged. */
  lemma OrdinaryOutcome(rows: Records, owner: u64, start: u64, end: u64, typ: i32, pid: u32)
    requires Readable(rows) && Ordinary(start, end, typ, pid)
    ensures var outcome := PgOutcomeOf(rows, owner, start, end, typ, pid);
            && (outcome.Conflicted? <==> Blocked(rows, owner, start, end, typ))
            && (outcome.Rejected? <==>
                !outcome.Conflicted? && end == I64_MAX && exists r | r in rows :: r.owner == owner && r.end.None?)
            && !outcome.Wedged?
  {
    ConflictCheckIsExactIff(start, end);
    ConflictModes(rows, owner, start, end);
    assert forall r | r in rows :: WellFormed(r);
  }

  /** What clearing leaves of stored, readable rows is readable exactly if it can be stored. */
  lemma PiecesStorable(rows: Records, owner: u64, start: u64, end: u64, p: PosixLockRecord)
    requires Readable(rows) && AllStorable(rows) && p in Cleared(rows, owner, start, end)
    ensures Accepted(p) <==> Storable(p)
  {
    var r := SourceOf(rows, owner, start, end, p);
  }

  /** The rows the update writes for the owner. */
  function OwnerRows(rows: Records, owner: u64, start: u64, end: u64, typ: i32, pid: u32): Records {
    OfOwner(Updated(rows, owner, start, end, typ, pid), owner, true)
  }

  lemma OwnerRowsStorable(rows: Records, owner: u64, start: u64, end: u64, typ: i32, pid: u32)
    requires Readable(rows) && AllStorable(rows) && (typ != F_UNLCK ==> !Conflicts(rows, owner, typ, start, end))
    ensures AllStorable(OwnerRows(rows, owner, start, end, typ, pid)) <==>
            !PgOutcomeOf(rows, owner, start, end, typ, pid).Rejected?
  {
    var mine, request := OwnerRows(rows, owner, start, end, typ, pid), Requested(owner, start, end, typ, pid);
    PiecesOfOwnerStorable(rows, owner, start, end);
    assert forall p :: p in mine <==> p.owner == owner && (p in Cleared(rows, owner, start, end) || request == Some(p));
  }

  /** The owner's remaining pieces fit the columns exactly when none is cut past the largest offset. */
  lemma PiecesOfOwnerStorable(rows: Records, owner: u64, start: u64, end: u64)
    requires Readable(rows) && AllStorable(rows)
    ensures (forall p | p in Cleared(rows, owner, start, end) && p.owner == owner :: Storable(p)) <==>
            !LeavesUnreadable(rows, owner, start, end)
  {
    UpdateIsAcceptedIff(rows, owner, start, end);
    forall p | p in Cleared(rows, owner, start, end)
      ensures (Accepted(p) <==> Storable(p)) && (p.owner != owner ==> Accepted(p))
    {
      PiecesStorable(rows, owner, start, end, p);
      if p.owner != owner { ClearedKeepsOthers(rows, owner, start, end, p); }
    }
  }

  lemma OwnerRowsReadable(rows: Records, owner: u64, start: u64, end: u64, typ: i32, pid: u32)
    requires Readable(rows) && AllStorable(rows) && (typ != F_UNLCK ==> !Conflicts(rows, owner, typ, start, end))
    requires AllStorable(OwnerRows(rows, owner, start, end, typ, pid))
    ensures Readable(OwnerRows(rows, owner, start, end, typ, pid)) <==>
            PgOutcomeOf(rows, owner, start, end, typ, pid).Committed?
  {
    var cleared := Cleared(rows, owner, start, end);
    OwnerRowsStorable(rows, owner, start, end, typ, pid);
    UpdateIsAcceptedIff(rows, owner, start, end);
    if typ != F_UNLCK {
      assert Requested(owner, start, end, typ, pid).value in OwnerRows(rows, owner, start, end, typ, pid);
    }
  }

  datatype TxResult = Refused | Aborted | Replaced(rows: Records)

  /** The rows after the commit: the owner's old rows are gone, the new ones are there, the others stayed. */
  lemma RowsAfterCommit(stored: Records, owner: u64, start: u64, end: u64, typ: i32, pid: u32, updated: Records,
                        rows: Records)
    requires Readable(stored) && AllStorable(stored) && (typ != F_UNLCK ==> !Conflicts(stored, owner, typ, start, end))
    requires updated == Updated(stored, owner, start, end, typ, pid) && AllStorable(OfOwner(updated, owner, true))
    requires forall r: PosixLockRecord | r.owner != owner :: r in stored <==> r in updated
    requires rows == OfOwner(stored, owner, false) + OfOwner(updated, owner, true)
    ensures AllStorable(rows) && forall h, b :: Held(rows, h, b) <==> Held(updated, h, b)
    ensures Readable(rows) <==> PgOutcomeOf(stored, owner, start, end, typ, pid).Committed?
    ensures Tidy(stored) && Tidy(updated) ==> Tidy(rows)
  {
    RowsOfOwnerReplaced(stored, updated, owner);
    SameMembersHeld(rows, updated);
    OwnerRowsReadable(stored, owner, start, end, typ, pid);
    assert forall r :: r in rows <==> (r in stored && r.owner != owner) || r in OfOwner(updated, owner, true);
  }

  /** The transaction: the stored rows are parsed, a conflict is refused, otherwise the owner's rows
      are replaced by what its payload parses to. */
  method UpdateLeaseRows(stored: Records, owner: u64, start: u64, end: u64, typ: i32, pid: u32)
    returns (result: TxResult)
    requires LocksOk(stored) && AllStorable(stored)
    ensures result.Refused? <==> PgOutcomeOf(stored, owner, start, end, typ, pid).Conflicted?
    ensures result.Aborted? <==> PgOutcomeOf(stored, owner, start, end, typ, pid).Rejected?
    ensures result.Replaced? ==>
              && LocksOk(result.rows) && AllStorable(result.rows)
              && RangeSet(stored, result.rows, owner, start, end, typ, pid)
              && (Readable(result.rows) <==> PgOutcomeOf(stored, owner, start, end, typ, pid).Committed?)
              && (start <= end && Tidy(stored) ==> Tidy(result.rows))
  {
    var records := ReadRows(stored);
    if records.None? { return Aborted; }
    if typ != F_UNLCK {
      var conflict := LockConflict(records.value, owner, typ, start, end);
      if conflict.Some? { return Refused; }
    }
    var updated := SetRange(records.value, owner, start, end, typ, pid);
    var mine := OfOwner(updated, owner, true);
    var inserted := WriteRows(mine, owner);
    OwnerRowsStorable(stored, owner, start, end, typ, pid);
    if inserted.None? { return Aborted; }
    result := Replaced(OfOwner(stored, owner, false) + inserted.value);
    RowsAfterCommit(stored, owner, start, end, typ, pid, updated, result.rows);
  }

  /** On a tidy table a request that is not inverted is refused exactly if it is blocked. */
  lemma BlockedMeansConflict(records: Records, owner: u64, start: u64, end: u64, typ: i32)
    ensures Tidy(records) && start <= end ==>
              (typ != F_UNLCK && Conflicts(records, owner, typ, start, end)
               <==> Blocked(records, owner, start, end, typ))
  {
    if Tidy(records) && start <= end {
      ConflictsOnTidy(records, owner, typ, start, end);
      ConflictModes(records, owner, start, end);
    }
  }

  // ---- the table

  datatype LockReply = Granted | WouldBlock | ReadOnly | Failed

  datatype LockQuery = Unlocked | LockedBy(record: PosixLockRecord) | QueryFailed

  function At(table: map<string, Records>, key: string): Records { if key in table then table[key] else [] }

  /** An empty list is not kept in the table. */
  function Put(table: map<string, Records>, key: string, records: Records): map<string, Records> {
    if records == [] then table - {key} else table[key := records]
  }

  ghost predicate TableOk(table: map<string, Records>) {
    forall key | key in table :: table[key] != [] && LocksOk(table[key])
  }

  /** The reply to a request, from the records of the deciding table and the request alone. */
  function ReplyTo(pg: bool, readOnly: bool, records: Records, owner: u64, start: u64, end: u64, typ: i32,
                   pid: u32): LockReply {
    if readOnly && typ == F_WRLCK then ReadOnly
    else if pg then
      match PgOutcomeOf(records, owner, start, end, typ, pid)
      case Committed => Granted
      case Conflicted => WouldBlock
      case Rejected => Failed
      case Wedged => Failed
    else if typ != F_UNLCK && Conflicts(records, owner, typ, start, end) then WouldBlock
    else Granted
  }

  // ---- what a sequence of callbacks does to the deciding table

  datatype Op =
    | SetOp(key: string, owner: u64, start: u64, end: u64, typ: i32, pid: u32)
    | GetOp(key: string, owner: u64, start: u64, end: u64, typ: i32)
    | ClearOp(owner: u64)

  datatype Answer = SetAnswer(reply: LockReply) | GetAnswer(query: LockQuery) | ClearAnswer

  predicate Inverted(op: Op) { op.SetOp? && op.end < op.start }

  /** Every list is free of conflicting modes, its records cover bytes, and an owner's do not overlap. */
  ghost predicate GoodTable(table: map<string, Records>) {
    TableOk(table) && forall key :: Tidy(At(table, key))
  }

  /** An owner clear: its records are gone from every resource, except that in the database rows
      that do not parse stay as they are. */
  ghost predicate OwnerCleared(pg: bool, before: map<string, Records>, after: map<string, Records>, owner: u64) {
    forall key :: if pg && !Readable(At(before, key)) then At(after, key) == At(before, key)
                  else Retained(At(before, key), At(after, key), owner)
  }

  /** What a lock request does to its resource. */
  ghost predicate Requests(pg: bool, readOnly: bool, before: Records, after: Records, op: Op, reply: LockReply)
    requires op.SetOp?
  {
    && reply == ReplyTo(pg, readOnly, before, op.owner, op.start, op.end, op.typ, op.pid)
    && (if reply.Granted? || (reply.Failed? && PgOutcomeOf(before, op.owner, op.start, op.end, op.typ, op.pid).Wedged?)
        then RangeSet(before, after, op.owner, op.start, op.end, op.typ, op.pid)
        else after == before)
  }

  /** One callback, in terms of the deciding table alone. */
  ghost predicate Performed(pg: bool, readOnly: bool, before: map<string, Records>, op: Op, answer: Answer,
                            after: map<string, Records>)
  {
    match op
    case SetOp(key, _, _, _, _, _) =>
      && answer.SetAnswer? && Requests(pg, readOnly, At(before, key), At(after, key), op, answer.reply)
      && forall k | k != key :: At(after, k) == At(before, k)
    case GetOp(key, owner, start, end, typ) =>
      && answer.GetAnswer? && after == before
      && (answer.query.QueryFailed? <==> pg && !Readable(At(before, key)))
      && (answer.query.LockedBy? <==> !answer.query.QueryFailed? && Conflicts(At(before, key), owner, typ, start, end))
    case ClearOp(owner) => answer.ClearAnswer? && OwnerCleared(pg, before, after, owner)
  }

  class PosixLocks {
    /** Whether the locks live in the database; otherwise they live in this process only. */
    const postgres: bool
    const readOnly: bool
    /** The lease rows of the database, by resource. */
    var leases: map<string, Records>
    /** The table of this process; with the database backend a mirror of what was last loaded. */
    var locks: map<string, Records>

    ghost predicate Valid()
      reads this
    {
      TableOk(leases) && TableOk(locks) && forall key | key in leases :: AllStorable(leases[key])
    }

    predicate BackendIsPg() { postgres && !readOnly }

    /** The table that decides. */
    function Table(): map<string, Records>
      reads this
    {
      if BackendIsPg() then leases else locks
    }

    /** With the database backend the mirror is up to date for every resource whose rows parse. It is
        while no other mount changes the rows. */
    ghost predicate Mirrored()
      reads this
    {
      BackendIsPg() ==> MirrorsRows(leases, locks)
    }

    constructor (postgres: bool, readOnly: bool)
      ensures Valid() && leases == map[] && locks == map[] && this.postgres == postgres && this.readOnly == readOnly
    {
      this.postgres, this.readOnly, leases, locks := postgres, readOnly, map[], map[];
    }

    /** The records of a resource; stored rows that do not parse are an error. */
    method Load(key: string) returns (records: Option<Records>)
      requires Valid()
      modifies this`locks
      ensures Valid() && Table() == old(Table())
      ensures records == if BackendIsPg() && !Readable(At(leases, key)) then None else Some(At(old(Table()), key))
      ensures BackendIsPg() ==> locks == if records.Some? then Put(old(locks), key, records.value) else old(locks)
    {
      if BackendIsPg() {
        records := ReadRows(At(leases, key));
        if records.Some? { locks := Put(locks, key, records.value); }
      } else {
        records := Some(At(locks, key));
      }
    }

    /** The record that blocks a request, or none. */
    method GetLk(key: string, owner: u64, start: u64, end: u64, typ: i32) returns (reply: LockQuery)
      requires Valid()
      modifies this`locks
      ensures Valid() && Table() == old(Table())
      ensures reply.QueryFailed? <==> BackendIsPg() && !Readable(At(Table(), key))
      ensures !reply.QueryFailed? ==> (reply.LockedBy? <==> Conflicts(At(Table(), key), owner, typ, start, end))
      ensures reply.LockedBy? ==>
                reply.record in At(Table(), key) && RecordConflicts(reply.record, owner, typ, start, end)
      ensures old(Mirrored()) ==> Mirrored()
      ensures start <= end && Tidy(At(Table(), key)) && !reply.QueryFailed? ==>
                (reply.LockedBy? <==> ByteConflicts(At(Table(), key), owner, typ, start, end))
    {
      var records := Load(key);
      if records.None? { return QueryFailed; }
      if start <= end && Tidy(records.value) { ConflictsOnTidy(records.value, owner, typ, start, end); }
      var conflict := LockConflict(records.value, owner, typ, start, end);
      reply := match conflict case Some(r) => LockedBy(r) case None => Unlocked;
    }

    /** The update through the database; after a commit the rows are loaded back. */
    method UpdatePgLockRange(key: string, owner: u64, start: u64, end: u64, typ: i32, pid: u32)
      returns (outcome: PgOutcome)
      requires Valid() && BackendIsPg()
      modifies this
      ensures Valid()
      ensures outcome == PgOutcomeOf(At(old(leases), key), owner, start, end, typ, pid)
      ensures outcome.Conflicted? || outcome.Rejected? ==> leases == old(leases) && locks == old(locks)
      ensures outcome.Committed? || outcome.Wedged? ==>
                RangeSet(At(old(leases), key), At(leases, key), owner, start, end, typ, pid)
      ensures outcome.Committed? ==> Readable(At(leases, key)) && At(locks, key) == At(leases, key)
      ensures outcome.Wedged? ==> !Readable(At(leases, key)) && locks == old(locks)
      ensures start <= end && Tidy(At(old(leases), key)) ==> Tidy(At(leases, key))
      ensures forall k | k != key :: At(leases, k) == At(old(leases), k) && At(locks, k) == At(old(locks), k)
    {
      var result := UpdateLeaseRows(At(leases, key), owner, start, end, typ, pid);
      match result {
        case Refused => return Conflicted;
        case Aborted => return Rejected;
        case Replaced(rows) =>
          leases := Put(leases, key, rows);
          var loaded := Load(key);
          outcome := if loaded.Some? then Committed else Wedged;
      }
    }

    /** Sets or clears a lock. A refusal changes nothing; a failure changes nothing unless the new rows
        cannot be read back. */
    method SetLk(key: string, owner: u64, start: u64, end: u64, typ: i32, pid: u32) returns (reply: LockReply)
      requires Valid()
      modifies this
      ensures Valid()
      ensures reply == ReplyTo(BackendIsPg(), readOnly, At(old(Table()), key), owner, start, end, typ, pid)
      ensures !BackendIsPg() && !(readOnly && typ == F_WRLCK) && start <= end && Tidy(At(old(Table()), key)) ==>
                (reply.WouldBlock? <==> Blocked(At(old(Table()), key), owner, start, end, typ))
      ensures BackendIsPg() && Readable(At(old(Table()), key)) && Ordinary(start, end, typ, pid) ==>
                (reply.WouldBlock? <==> Blocked(At(old(Table()), key), owner, start, end, typ))
      ensures reply.Granted? ==> RangeSet(At(old(Table()), key), At(Table(), key), owner, start, end, typ, pid)
      ensures reply.WouldBlock? || reply.ReadOnly? ==> Table() == old(Table())
      ensures reply.Failed? && !PgOutcomeOf(At(old(Table()), key), owner, start, end, typ, pid).Wedged? ==>
                Table() == old(Table())
      ensures reply.Failed? && PgOutcomeOf(At(old(Table()), key), owner, start, end, typ, pid).Wedged? ==>
                !Readable(At(Table(), key))
                && RangeSet(At(old(Table()), key), At(Table(), key), owner, start, end, typ, pid)
      ensures start <= end && Tidy(At(old(Table()), key)) ==> Tidy(At(Table(), key))
      ensures forall k | k != key :: At(Table(), k) == At(old(Table()), k)
      ensures old(Mirrored()) ==> Mirrored()
    {
      if readOnly && typ == F_WRLCK { return ReadOnly; }
      BlockedMeansConflict(At(Table(), key), owner, start, end, typ);
      if BackendIsPg() {
        if Readable(At(leases, key)) && Ordinary(start, end, typ, pid) {
          OrdinaryOutcome(At(leases, key), owner, start, end, typ, pid);
        }
        var outcome := UpdatePgLockRange(key, owner, start, end, typ, pid);
        return match outcome case Committed => Granted case Conflicted => WouldBlock case _ => Failed;
      }
      var records := At(locks, key);
      if typ != F_UNLCK {
        var conflict := LockConflict(records, owner, typ, start, end);
        if conflict.Some? { return WouldBlock; }
      }
      var updated := SetRange(records, owner, start, end, typ, pid);
      locks := Put(locks, key, updated);
      return Granted;
    }

    /** Drops an owner's records from one resource. */
    method RetainOthers(key: string, owner: u64) returns (touched: bool)
      requires TableOk(locks) && key in locks
      modifies this`locks
      ensures TableOk(locks) && touched == HasOwner(old(locks)[key], owner)
      ensures Emptied(old(locks)[key], At(locks, key), owner)
      ensures forall k | k != key :: (k in locks <==> k in old(locks)) && At(locks, k) == At(old(locks), k)
    {
      var kept := OfOwner(locks[key], owner, false);
      SameLengthIffNoneMine(locks[key], owner);
      FilterKeepsTidy(locks[key], owner, false);
      forall h, b { FilterMeaning(locks[key], owner, false, h, b); }
      touched := |kept| != |locks[key]|;
      if !touched { FilterKeepsAll(locks[key], owner); }
      locks := Put(locks, key, kept);
    }

    /** Drops every lock of an owner from the process table, and reports the resources touched. */
    method ClearLocksForOwner(owner: u64) returns (changed: set<string>)
      requires Valid()
      modifies this`locks
      ensures Valid()
      ensures forall key :: key in changed <==> HasOwner(At(old(locks), key), owner)
      ensures forall key :: Emptied(At(old(locks), key), At(locks, key), owner)
    {
      changed := {};
      var todo := locks.Keys;
      while todo != {}
        invariant TableOk(locks) && todo <= locks.Keys
        invariant forall key | key in todo :: At(locks, key) == At(old(locks), key)
        invariant forall key | key !in todo :: Emptied(At(old(locks), key), At(locks, key), owner)
        invariant forall key :: key in changed <==> key !in todo && HasOwner(At(old(locks), key), owner)
        decreases |todo|
      {
        var key :| key in todo;
        var touched := RetainOthers(key, owner);
        if touched { changed := changed + {key}; }
        todo := todo - {key};
      }
    }

    /** The clear of an owner on flush and release. With the database backend every resource the
        mirror had the owner on is unlocked from the first to the last offset. */
    method ClearLocksForOwnerAndSync(owner: u64)
      requires Valid()
      modifies this
      ensures Valid() && (old(Mirrored()) ==> Mirrored())
      ensures BackendIsPg() ==> AllSynced(old(leases), old(locks), leases, locks, owner)
      ensures !BackendIsPg() ==> forall key :: Emptied(At(old(locks), key), At(locks, key), owner)
      ensures old(Mirrored()) ==> OwnerCleared(BackendIsPg(), old(Table()), Table(), owner)
    {
      var changed := ClearLocksForOwner(owner);
      if BackendIsPg() {
        SyncCleared(owner, changed, old(locks));
        if MirrorsRows(old(leases), old(locks)) { SyncedMeansCleared(old(leases), old(locks), leases, locks, owner); }
      }
    }

    method SyncCleared(owner: u64, changed: set<string>, ghost mirror: map<string, Records>)
      requires Valid() && BackendIsPg()
      requires forall key :: key in changed <==> HasOwner(At(mirror, key), owner)
      requires forall key :: Emptied(At(mirror, key), At(locks, key), owner)
      modifies this
      ensures Valid() && AllSynced(old(leases), mirror, leases, locks, owner)
    {
      var todo := changed;
      while todo != {}
        invariant Valid() && todo <= changed
        invariant forall key | key in todo ::
                    At(leases, key) == At(old(leases), key) && At(locks, key) == At(old(locks), key)
        invariant forall key | key !in todo ::
                    Synced(At(old(leases), key), At(mirror, key), At(leases, key), At(locks, key), owner)
        decreases |todo|
      {
        var key :| key in todo;
        SyncOne(key, owner, At(mirror, key));
        todo := todo - {key};
      }
    }

    /** Unlocks the owner's whole range of one resource; an error is only logged. */
    method SyncOne(key: string, owner: u64, ghost mirror: Records)
      requires Valid() && BackendIsPg() && HasOwner(mirror, owner) && Emptied(mirror, At(locks, key), owner)
      modifies this
      ensures Valid() && Synced(At(old(leases), key), mirror, At(leases, key), At(locks, key), owner)
      ensures forall k | k != key :: At(leases, k) == At(old(leases), k) && At(locks, k) == At(old(locks), k)
    {
      var outcome := UpdatePgLockRange(key, owner, 0, LAST, F_UNLCK, 0);
    }

    // ---- sequences of callbacks

    /** One callback of a sequence. */
    method Perform(op: Op) returns (answer: Answer)
      requires Valid() && Mirrored()
      modifies this
      ensures Valid() && Mirrored() && Performed(BackendIsPg(), readOnly, old(Table()), op, answer, Table())
      ensures !Inverted(op) && old(GoodTable(Table())) ==> GoodTable(Table())
    {
      match op
      case SetOp(key, owner, start, end, typ, pid) =>
        var reply := SetLk(key, owner, start, end, typ, pid);
        answer := SetAnswer(reply);
      case GetOp(key, owner, start, end, typ) =>
        var query := GetLk(key, owner, start, end, typ);
        answer := GetAnswer(query);
      case ClearOp(owner) =>
        ClearLocksForOwnerAndSync(owner);
        answer := ClearAnswer;
    }

    /** Over every sequence of callbacks each one does what the deciding table before it says, and no
        byte is ever held in conflicting modes. Without inverted requests every owner's records stay
        nonempty and disjoint. */
    method Run(ops: seq<Op>) returns (answers: seq<Answer>, tables: seq<map<string, Records>>)
      requires Valid() && Mirrored()
      modifies this
      ensures Valid() && Mirrored() && |answers| == |ops| && |tables| == |ops| + 1
      ensures tables[0] == old(Table()) && tables[|ops|] == Table()
      ensures forall n | 0 <= n < |ops| ::
                Performed(BackendIsPg(), readOnly, tables[n], ops[n], answers[n], tables[n + 1])
      ensures forall n | 0 <= n <= |ops| :: TableOk(tables[n])
      ensures old(GoodTable(Table())) && (forall n | 0 <= n < |ops| :: !Inverted(ops[n])) ==>
                forall n | 0 <= n <= |ops| :: GoodTable(tables[n])
    {
      answers, tables := [], [Table()];
      for n := 0 to |ops|
        invariant Valid() && Mirrored() && |answers| == n && |tables| == n + 1
        invariant tables[0] == old(Table()) && tables[n] == Table()
        invariant forall m | 0 <= m < n ::
                    Performed(BackendIsPg(), readOnly, tables[m], ops[m], answers[m], tables[m + 1])
        invariant forall m | 0 <= m <= n :: TableOk(tables[m])
        invariant old(GoodTable(Table())) && (forall m | 0 <= m < n :: !Inverted(ops[m])) ==>
                    forall m | 0 <= m <= n :: GoodTable(tables[m])
      {
        var answer := Perform(ops[n]);
        answers, tables := answers + [answer], tables + [Table()];
      }
    }
  }

  /** Only the owner's records are gone, and tidy records stay so. */
  ghost predicate Retained(before: Records, after: Records, owner: u64) {
    && (forall h, b :: Held(after, h, b) <==> Held(before, h, b) && h.owner != owner)
    && (Tidy(before) ==> Tidy(after))
  }

  /** The same, and a list without the owner's records is as it was. */
  ghost predicate Emptied(before: Records, after: Records, owner: u64) {
    Retained(before, after, owner) && (!HasOwner(before, owner) ==> after == before)
  }

  /** The mirror is up to date wherever the rows parse. */
  ghost predicate MirrorsRows(rows: map<string, Records>, mirror: map<string, Records>) {
    forall key :: Readable(At(rows, key)) ==> At(mirror, key) == At(rows, key)
  }

  /** What a clear leaves of one resource in the database and in the mirror: the rows lose the owner
      if the mirror had it and they parse, otherwise they stay. */
  ghost predicate Synced(rows: Records, mirror: Records, rows': Records, mirror': Records, owner: u64) {
    if HasOwner(mirror, owner) && Readable(rows)
    then Retained(rows, rows', owner) && Readable(rows') && mirror' == rows'
    else rows' == rows && Emptied(mirror, mirror', owner)
  }

  ghost predicate AllSynced(rows: map<string, Records>, mirror: map<string, Records>,
                            rows': map<string, Records>, mirror': map<string, Records>, owner: u64)
  {
    forall key :: Synced(At(rows, key), At(mirror, key), At(rows', key), At(mirror', key), owner)
  }

  /** With an up-to-date mirror no resource whose rows parse is missed. */
  lemma SyncedMeansCleared(rows: map<string, Records>, mirror: map<string, Records>,
                           rows': map<string, Records>, mirror': map<string, Records>, owner: u64)
    requires MirrorsRows(rows, mirror) && AllSynced(rows, mirror, rows', mirror', owner)
    ensures MirrorsRows(rows', mirror') && OwnerCleared(true, rows, rows', owner)
  {
    forall key
      ensures Readable(At(rows', key)) ==> At(mirror', key) == At(rows', key)
      ensures if !Readable(At(rows, key)) then At(rows', key) == At(rows, key)
              else Retained(At(rows, key), At(rows', key), owner)
    {
      assert Synced(At(rows, key), At(mirror, key), At(rows', key), At(mirror', key), owner);
    }
  }

  /** The same from a new table on. */
  method RunFromStart(postgres: bool, readOnly: bool, ops: seq<Op>)
    returns (answers: seq<Answer>, tables: seq<map<string, Records>>)
    ensures |answers| == |ops| && |tables| == |ops| + 1 && tables[0] == map[]
    ensures forall n | 0 <= n < |ops| ::
              Performed(postgres && !readOnly, readOnly, tables[n], ops[n], answers[n], tables[n + 1])
    ensures forall n | 0 <= n <= |ops| :: TableOk(tables[n])
    ensures (forall n | 0 <= n < |ops| :: !Inverted(ops[n])) ==> forall n | 0 <= n <= |ops| :: GoodTable(tables[n])
  {
    var table := new PosixLocks(postgres, readOnly);
    answers, tables := table.Run(ops);
  }

  predicate HasOwner(records: Records, owner: u64) { exists r | r in records :: r.owner == owner }

  lemma {:induction false} SameLengthIffNoneMine(records: Records, owner: u64)
    ensures |OfOwner(records, owner, false)| <= |records|
    ensures |OfOwner(records, owner, false)| == |records| <==> !HasOwner(records, owner)
  {
    if records != [] {
      SameLengthIffNoneMine(records[..|records| - 1], owner);
      assert records[|records| - 1] in records;
    }
  }

  /** An inverted lock request is stored although it cannot be read back. From then on every request
      for the resource fails, also after the owner has closed the file. */
  method InvertedRequestWedges(key: string, owner: u64, start: u64, end: u64, pid: u32,
                               owner': u64, start': u64, end': u64, typ': i32, pid': u32)
    returns (first: LockReply, second: LockReply, third: LockReply)
    requires end < start <= I64_MAX && pid <= I32_MAX
    ensures first.Failed? && second.Failed? && third.Failed?
  {
    var table := new PosixLocks(true, false);
    first := table.SetLk(key, owner, start, end, F_WRLCK, pid);
    second := table.SetLk(key, owner', start', end', typ', pid');
    table.ClearLocksForOwnerAndSync(owner);
    third := table.SetLk(key, owner', start', end', typ', pid');
  }
}
