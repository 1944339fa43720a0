/** POSIX byte-range locks: conflict check, range replacement and the lock table. */
module LockTable {
  import opened Bytes

  /** Machine integers, so that every addition and subtraction is checked. */
  newtype u64 = x: int | 0 <= x <= 0xFFFF_FFFF_FFFF_FFFF
  newtype u32 = x: int | 0 <= x <= 0xFFFF_FFFF
  newtype i32 = x: int | -0x8000_0000 <= x <= 0x7FFF_FFFF

  const LAST: u64 := 0xFFFF_FFFF_FFFF_FFFF
  const F_RDLCK: i32 := 0
  const F_WRLCK: i32 := 1
  const F_UNLCK: i32 := 2

  datatype PosixLockRecord = PosixLockRecord(owner: u64, typ: i32, start: u64, end: Option<u64>, pid: u32)

  type Records = seq<PosixLockRecord>

  /** The last byte of a record; an open-ended one runs to the last offset. */
  function EndOf(r: PosixLockRecord): u64 { match r.end case Some(e) => e case None => LAST }

  predicate CoversByte(r: PosixLockRecord, b: u64) { r.start <= b <= EndOf(r) }

  datatype Holder = Holder(owner: u64, typ: i32, pid: u32)

  function HolderOf(r: PosixLockRecord): Holder { Holder(r.owner, r.typ, r.pid) }

  /** What a lock table means: who holds which byte in which mode. */
  predicate Held(records: Records, h: Holder, b: u64) {
    exists r | r in records :: HolderOf(r) == h && CoversByte(r, b)
  }

  predicate TypeConflicts(existing: i32, requested: i32) {
    if requested == F_RDLCK then existing == F_WRLCK
    else if requested == F_WRLCK then existing == F_RDLCK || existing == F_WRLCK
    else false
  }

  predicate RangeOverlaps(startA: u64, endA: Option<u64>, startB: u64, endB: Option<u64>) {
    startA <= (match endB case Some(e) => e case None => LAST)
    && startB <= (match endA case Some(e) => e case None => LAST)
  }

  /** The record covers at least one byte. */
  predicate WellFormed(r: PosixLockRecord) { r.start <= EndOf(r) }

  // ---- the conflict check

  predicate RecordConflicts(r: PosixLockRecord, owner: u64, typ: i32, start: u64, end: u64) {
    r.owner != owner && RangeOverlaps(start, Some(end), r.start, r.end) && TypeConflicts(r.typ, typ)
  }

  /** What the source tests. */
  predicate Conflicts(records: Records, owner: u64, typ: i32, start: u64, end: u64) {
    exists r | r in records :: RecordConflicts(r, owner, typ, start, end)
  }

  /** Some byte of the request is held incompatibly by another owner. */
  predicate ByteConflicts(records: Records, owner: u64, typ: i32, start: u64, end: u64) {
    exists r | r in records ::
      r.owner != owner && TypeConflicts(r.typ, typ)
      && Max(r.start as int, start as int) <= Min(EndOf(r) as int, end as int)
  }

  /** The same, in terms of what is held where. */
  lemma ByteConflictsMeaning(records: Records, owner: u64, typ: i32, start: u64, end: u64)
    ensures ByteConflicts(records, owner, typ, start, end) <==>
            exists h, b :: start <= b <= end && Held(records, h, b) && h.owner != owner && TypeConflicts(h.typ, typ)
  {
    if ByteConflicts(records, owner, typ, start, end) {
      var r :| r in records && r.owner != owner && TypeConflicts(r.typ, typ)
            && Max(r.start as int, start as int) <= Min(EndOf(r) as int, end as int);
      var b := if r.start < start then start else r.start;
      assert CoversByte(r, b) && Held(records, HolderOf(r), b);
    }
    if h, b :| start <= b <= end && Held(records, h, b) && h.owner != owner && TypeConflicts(h.typ, typ) {
      var r :| r in records && HolderOf(r) == h && CoversByte(r, b);
      assert r.owner != owner;
    }
  }

  /** The first conflicting record in table order, if any. */
  method LockConflict(records: Records, owner: u64, typ: i32, start: u64, end: u64)
    returns (conflict: Option<PosixLockRecord>)
    ensures conflict.Some? <==> Conflicts(records, owner, typ, start, end)
    ensures conflict.Some? ==> exists n | 0 <= n < |records| ::
              && records[n] == conflict.value && RecordConflicts(records[n], owner, typ, start, end)
              && forall m | 0 <= m < n :: !RecordConflicts(records[m], owner, typ, start, end)
    ensures conflict.Some? ==>
              && conflict.value.owner != owner
              && (conflict.value.typ == F_WRLCK || conflict.value.typ == F_RDLCK) && (typ == F_WRLCK || typ == F_RDLCK)
              && (typ == F_WRLCK || conflict.value.typ == F_WRLCK)
    ensures conflict.None? ==>
              forall r | r in records && r.owner != owner && RangeOverlaps(start, Some(end), r.start, r.end) ::
                && (typ == F_RDLCK ==> r.typ != F_WRLCK)
                && (typ == F_WRLCK ==> r.typ != F_RDLCK && r.typ != F_WRLCK)
  {
    for n := 0 to |records|
      invariant forall m | 0 <= m < n :: !RecordConflicts(records[m], owner, typ, start, end)
    {
      var r := records[n];
      if r.owner == owner { continue; }
      if !RangeOverlaps(start, Some(end), r.start, r.end) { continue; }
      if TypeConflicts(r.typ, typ) {
        assert r in records && RecordConflicts(r, owner, typ, start, end);
        return Some(r);
      }
    }
    return None;
  }

  /** The check is exact for well-formed tables exactly when the request is not inverted: the
      callback does not test start against end. */
  lemma ConflictCheckIsExactIff(start: u64, end: u64)
    ensures start <= end <==>
            forall records: Records, owner, typ | forall r | r in records :: WellFormed(r) ::
              Conflicts(records, owner, typ, start, end) <==> ByteConflicts(records, owner, typ, start, end)
  {
    if end < start {
      var r := PosixLockRecord(1, F_WRLCK, 0, None, 0);
      assert r in [r] && RecordConflicts(r, 0, F_WRLCK, start, end) && !ByteConflicts([r], 0, F_WRLCK, start, end);
      assert forall q | q in [r] :: WellFormed(q);
    } else {
      forall records: Records, owner, typ | forall r | r in records :: WellFormed(r)
        ensures Conflicts(records, owner, typ, start, end) <==> ByteConflicts(records, owner, typ, start, end)
      {
        assert forall r | r in records :: RecordConflicts(r, owner, typ, start, end) <==>
          r.owner != owner && TypeConflicts(r.typ, typ)
          && Max(r.start as int, start as int) <= Min(EndOf(r) as int, end as int);
      }
    }
  }

  // ---- the range update

  /** What is left of a record outside the updated range. */
  function Pieces(r: PosixLockRecord, owner: u64, start: u64, end: u64): Records {
    if r.owner != owner || !RangeOverlaps(start, Some(end), r.start, r.end) then [r]
    else (if r.start < start then [r.(end := Some(start - 1))] else [])
         + (if end < EndOf(r) then [r.(start := end + 1)] else [])
  }

  function Cleared(records: Records, owner: u64, start: u64, end: u64): Records {
    if records == [] then []
    else Cleared(records[..|records| - 1], owner, start, end) + Pieces(records[|records| - 1], owner, start, end)
  }

  function Replacement(replacement: Option<PosixLockRecord>): Records {
    match replacement case Some(r) => [r] case None => []
  }

  method UpdateOwnerLockRange(records: Records, owner: u64, start: u64, end: u64, replacement: Option<PosixLockRecord>)
    returns (updated: Records)
    ensures updated == Cleared(records, owner, start, end) + Replacement(replacement)
  {
    updated := [];
    for n := 0 to |records|
      invariant updated == Cleared(records[..n], owner, start, end)
    {
      var r := records[n];
      assert records[..n + 1][..n] == records[..n];
      if r.owner != owner || !RangeOverlaps(start, Some(end), r.start, r.end) {
        updated := updated + [r];
        continue;
      }
      ghost var before := updated;
      if r.start < start { updated := updated + [r.(end := Some(start - 1))]; }
      var recordEnd := EndOf(r);
      if end < recordEnd { updated := updated + [r.(start := end + 1)]; }
      assert updated == before + Pieces(r, owner, start, end);
    }
    assert records[..|records|] == records;
    match replacement
    case Some(r) => updated := updated + [r];
    case None => {}
  }

  lemma HeldAppend(a: Records, b: Records, h: Holder, v: u64)
    ensures Held(a + b, h, v) <==> Held(a, h, v) || Held(b, h, v)
  {
  }

  lemma HeldInPieces(r: PosixLockRecord, owner: u64, start: u64, end: u64, h: Holder, b: u64)
    ensures Held(Pieces(r, owner, start, end), h, b) <==>
            HolderOf(r) == h && CoversByte(r, b) && !(h.owner == owner && start <= b <= end)
  {
    var pieces := Pieces(r, owner, start, end);
    if r.owner != owner || !RangeOverlaps(start, Some(end), r.start, r.end) {
      assert r in pieces;
    } else {
      if r.start < start { assert r.(end := Some(start - 1)) in pieces; }
      if end < EndOf(r) { assert r.(start := end + 1) in pieces; }
    }
  }

  /** Clearing takes exactly the owner's bytes in the range, for every table and every range. */
  lemma {:induction false} ClearedMeaning(records: Records, owner: u64, start: u64, end: u64, h: Holder, b: u64)
    ensures Held(Cleared(records, owner, start, end), h, b) <==>
            Held(records, h, b) && !(h.owner == owner && start <= b <= end)
  {
    if records != [] {
      var n := |records| - 1;
      ClearedMeaning(records[..n], owner, start, end, h, b);
      HeldInPieces(records[n], owner, start, end, h, b);
      HeldAppend(Cleared(records[..n], owner, start, end), Pieces(records[n], owner, start, end), h, b);
      assert records == records[..n] + [records[n]];
      HeldAppend(records[..n], [records[n]], h, b);
    }
  }

  /** A lock update changes exactly the requesting owner's bytes in the range and nothing else. */
  lemma UpdateMeaning(records: Records, owner: u64, start: u64, end: u64, replacement: Option<PosixLockRecord>,
                      h: Holder, b: u64)
    requires replacement.Some? ==>
               replacement.value.owner == owner && replacement.value.start == start
               && replacement.value.end == Some(end)
    ensures Held(Cleared(records, owner, start, end) + Replacement(replacement), h, b) <==>
            if h.owner == owner && start <= b <= end then replacement.Some? && HolderOf(replacement.value) == h
            else Held(records, h, b)
  {
    ClearedMeaning(records, owner, start, end, h, b);
    HeldAppend(Cleared(records, owner, start, end), Replacement(replacement), h, b);
    if replacement.Some? { assert replacement.value in Replacement(replacement); }
  }

  // ---- what every table keeps

  /** No byte is held in conflicting modes by two owners, and an owner holds a byte in one way only. */
  ghost predicate LocksOk(records: Records) {
    forall h: Holder, g: Holder, b: u64 | Held(records, h, b) && Held(records, g, b) ::
      if h.owner == g.owner then h == g else !TypeConflicts(h.typ, g.typ)
  }

  /** Unlocking any range, and granting any request that the check lets through, keeps the table
      good, whatever the bounds and the type of the request are. */
  lemma UpdateKeepsOk(records: Records, owner: u64, start: u64, end: u64, replacement: Option<PosixLockRecord>)
    requires LocksOk(records)
    requires replacement.Some? ==>
               replacement.value.owner == owner && replacement.value.start == start
               && replacement.value.end == Some(end)
    requires replacement.Some? ==> !Conflicts(records, owner, replacement.value.typ, start, end)
    ensures LocksOk(Cleared(records, owner, start, end) + Replacement(replacement))
  {
    var after := Cleared(records, owner, start, end) + Replacement(replacement);
    forall h: Holder, g: Holder, b: u64 | Held(after, h, b) && Held(after, g, b)
      ensures if h.owner == g.owner then h == g else !TypeConflicts(h.typ, g.typ)
    {
      UpdateMeaning(records, owner, start, end, replacement, h, b);
      UpdateMeaning(records, owner, start, end, replacement, g, b);
      if h.owner == owner != g.owner && start <= b <= end {
        GrantedIsCompatible(records, owner, h.typ, start, end, g, b);
      } else if g.owner == owner != h.owner && start <= b <= end {
        GrantedIsCompatible(records, owner, g.typ, start, end, h, b);
      }
    }
  }

  /** What another owner holds inside a request that was let through does not conflict with it. */
  lemma GrantedIsCompatible(records: Records, owner: u64, typ: i32, start: u64, end: u64, h: Holder, b: u64)
    requires !Conflicts(records, owner, typ, start, end) && Held(records, h, b) && h.owner != owner && start <= b <= end
    ensures !TypeConflicts(h.typ, typ) && !TypeConflicts(typ, h.typ)
  {
    var r :| r in records && HolderOf(r) == h && CoversByte(r, b);
    assert !RecordConflicts(r, owner, typ, start, end);
  }

  /** The law with its modes spelled out: owners that share a byte, each reading or writing, all read. */
  lemma SharersAllRead(records: Records, h: Holder, g: Holder, b: u64)
    requires LocksOk(records) && Held(records, h, b) && Held(records, g, b) && h.owner != g.owner
    requires (h.typ == F_RDLCK || h.typ == F_WRLCK) && (g.typ == F_RDLCK || g.typ == F_WRLCK)
    ensures h.typ == F_RDLCK && g.typ == F_RDLCK
  {
    assert !TypeConflicts(h.typ, g.typ);
  }

  /** Another owner holds a byte of the range for writing. */
  ghost predicate WriterInRange(records: Records, owner: u64, start: u64, end: u64) {
    exists h, b :: start <= b <= end && Held(records, h, b) && h.owner != owner && h.typ == F_WRLCK
  }

  /** Another owner holds a byte of the range, for reading or writing. */
  ghost predicate AnyoneInRange(records: Records, owner: u64, start: u64, end: u64) {
    exists h, b ::
      start <= b <= end && Held(records, h, b) && h.owner != owner && (h.typ == F_RDLCK || h.typ == F_WRLCK)
  }

  /** A read request conflicts exactly with writers, a write request with everyone, an unlock with nobody. */
  lemma ConflictModes(records: Records, owner: u64, start: u64, end: u64)
    ensures ByteConflicts(records, owner, F_RDLCK, start, end) <==> WriterInRange(records, owner, start, end)
    ensures ByteConflicts(records, owner, F_WRLCK, start, end) <==> AnyoneInRange(records, owner, start, end)
    ensures !ByteConflicts(records, owner, F_UNLCK, start, end)
  {
    ByteConflictsMeaning(records, owner, F_RDLCK, start, end);
    ByteConflictsMeaning(records, owner, F_WRLCK, start, end);
  }

  // ---- what requests that are not inverted keep

  predicate Apart(a: PosixLockRecord, b: PosixLockRecord) { EndOf(a) < b.start || EndOf(b) < a.start }

  predicate OwnersDisjoint(records: Records) {
    forall m, n | 0 <= m < n < |records| :: records[m].owner == records[n].owner ==> Apart(records[m], records[n])
  }

  /** Every record covers a byte, and an owner's records do not overlap. */
  ghost predicate Tidy(records: Records) {
    (forall r | r in records :: WellFormed(r)) && OwnersDisjoint(records)
  }

  /** On a tidy table the check refuses a request exactly when some byte of it is held incompatibly. */
  lemma ConflictsOnTidy(records: Records, owner: u64, typ: i32, start: u64, end: u64)
    requires Tidy(records) && start <= end
    ensures Conflicts(records, owner, typ, start, end) <==> ByteConflicts(records, owner, typ, start, end)
  {
    ConflictCheckIsExactIff(start, end);
  }

  /** A piece keeps its holder and lies inside the record it came from. */
  predicate Within(piece: PosixLockRecord, r: PosixLockRecord) {
    HolderOf(piece) == HolderOf(r) && r.start <= piece.start <= EndOf(piece) <= EndOf(r)
  }

  lemma PieceIsWithin(r: PosixLockRecord, owner: u64, start: u64, end: u64, p: PosixLockRecord)
    requires WellFormed(r) && start as int <= end as int + 1 && p in Pieces(r, owner, start, end)
    ensures Within(p, r) && (p.owner == owner ==> EndOf(p) < start || end < p.start)
  {
  }

  lemma DisjointAppend(a: Records, b: Records)
    requires OwnersDisjoint(a) && OwnersDisjoint(b)
    requires forall r, q | r in a && q in b :: r.owner == q.owner ==> Apart(r, q)
    ensures OwnersDisjoint(a + b)
  {
  }

  ghost predicate PartOf(p: PosixLockRecord, records: Records, owner: u64, start: u64, end: u64) {
    && (exists r | r in records :: Within(p, r))
    && (p.owner == owner ==> EndOf(p) < start || end < p.start)
  }

  /** Clearing leaves parts of the old records, with nothing of the owner's in the range. */
  lemma {:induction false} ClearedParts(records: Records, owner: u64, start: u64, end: u64, p: PosixLockRecord)
    requires (forall r | r in records :: WellFormed(r)) && start as int <= end as int + 1
    requires p in Cleared(records, owner, start, end)
    ensures PartOf(p, records, owner, start, end)
  {
    var last, rest := records[|records| - 1], records[..|records| - 1];
    if p in Cleared(rest, owner, start, end) {
      ClearedParts(rest, owner, start, end, p);
      var whole :| whole in rest && Within(p, whole);
      assert whole in records;
    } else {
      assert last in records;
      PieceIsWithin(last, owner, start, end, p);
    }
  }

  lemma LastIsApart(records: Records, r: PosixLockRecord)
    requires records != [] && OwnersDisjoint(records) && r in records[..|records| - 1]
    requires r.owner == records[|records| - 1].owner
    ensures Apart(r, records[|records| - 1])
  {
  }

  lemma PiecesStayApart(records: Records, owner: u64, start: u64, end: u64, p: PosixLockRecord, q: PosixLockRecord)
    requires records != [] && (forall r | r in records :: WellFormed(r)) && OwnersDisjoint(records)
    requires start as int <= end as int + 1
    requires p in Cleared(records[..|records| - 1], owner, start, end)
    requires q in Pieces(records[|records| - 1], owner, start, end)
    requires p.owner == q.owner
    ensures Apart(p, q)
  {
    var last, rest := records[|records| - 1], records[..|records| - 1];
    assert last in records;
    ClearedParts(rest, owner, start, end, p);
    PieceIsWithin(last, owner, start, end, q);
    var whole :| whole in rest && Within(p, whole);
    LastIsApart(records, whole);
  }

  lemma {:induction false} ClearedIsDisjoint(records: Records, owner: u64, start: u64, end: u64)
    requires (forall r | r in records :: WellFormed(r)) && OwnersDisjoint(records) && start as int <= end as int + 1
    ensures OwnersDisjoint(Cleared(records, owner, start, end))
  {
    if records != [] {
      var last, rest := records[|records| - 1], records[..|records| - 1];
      ClearedIsDisjoint(rest, owner, start, end);
      var done, pieces := Cleared(rest, owner, start, end), Pieces(last, owner, start, end);
      forall p, q | p in done && q in pieces && p.owner == q.owner ensures Apart(p, q) {
        PiecesStayApart(records, owner, start, end, p, q);
      }
      assert last in records && OwnersDisjoint(pieces);
      DisjointAppend(done, pieces);
    }
  }

  /** Grants and unlocks that are not inverted keep a tidy table tidy. */
  lemma UpdateKeepsTidy(records: Records, owner: u64, start: u64, end: u64, replacement: Option<PosixLockRecord>)
    requires Tidy(records) && (start <= end || (replacement.None? && start as int == end as int + 1))
    requires replacement.Some? ==>
               replacement.value.owner == owner && replacement.value.start == start
               && replacement.value.end == Some(end)
    ensures Tidy(Cleared(records, owner, start, end) + Replacement(replacement))
  {
    ClearedIsDisjoint(records, owner, start, end);
    var done, more := Cleared(records, owner, start, end), Replacement(replacement);
    forall p | p in done ensures WellFormed(p) && forall q | q in more && q.owner == p.owner :: Apart(p, q) {
      ClearedParts(records, owner, start, end, p);
      var x :| x in records && Within(p, x);
    }
    DisjointAppend(done, more);
    assert forall a :: a in done + more <==> a in done || a in more;
  }

  // ---- filtering by owner

  function OfOwner(records: Records, owner: u64, mine: bool): (r: Records)
    ensures forall q :: q in r <==> q in records && (q.owner == owner) == mine
  {
    if records == [] then []
    else
      var rest := OfOwner(records[..|records| - 1], owner, mine);
      if (records[|records| - 1].owner == owner) == mine then rest + [records[|records| - 1]] else rest
  }

  lemma {:induction false} FilterKeepsDisjoint(records: Records, owner: u64, mine: bool)
    requires OwnersDisjoint(records)
    ensures OwnersDisjoint(OfOwner(records, owner, mine))
  {
    if records != [] {
      var n := |records| - 1;
      FilterKeepsDisjoint(records[..n], owner, mine);
      forall r | r in records[..n] && r.owner == records[n].owner ensures Apart(r, records[n]) {
        var m :| 0 <= m < n && records[..n][m] == r;
      }
      DisjointAppend(OfOwner(records[..n], owner, mine), [records[n]]);
    }
  }

  lemma FilterKeepsTidy(records: Records, owner: u64, mine: bool)
    ensures Tidy(records) ==> Tidy(OfOwner(records, owner, mine))
  {
    if Tidy(records) { FilterKeepsDisjoint(records, owner, mine); }
  }

  lemma {:induction false} FilterKeepsAll(records: Records, owner: u64)
    requires forall n | 0 <= n < |records| :: records[n].owner != owner
    ensures OfOwner(records, owner, false) == records
  {
    if records != [] {
      var n := |records| - 1;
      FilterKeepsAll(records[..n], owner);
      assert records == records[..n] + [records[n]];
    }
  }

  lemma FilterMeaning(records: Records, owner: u64, mine: bool, h: Holder, b: u64)
    ensures Held(OfOwner(records, owner, mine), h, b) <==> Held(records, h, b) && (h.owner == owner) == mine
  {
  }

  lemma {:induction false} ClearedKeepsOthers(records: Records, owner: u64, start: u64, end: u64, r: PosixLockRecord)
    requires r.owner != owner
    ensures r in Cleared(records, owner, start, end) <==> r in records
  {
    if records != [] {
      var n := |records| - 1;
      var rest, last := records[..n], records[n];
      ClearedKeepsOthers(rest, owner, start, end, r);
      assert records == rest + [last];
      assert r in Pieces(last, owner, start, end) <==> r == last;
    }
  }

  /** Replacing the owner's rows and leaving the other rows alone amounts to the updated table. */
  lemma RowsOfOwnerReplaced(rows: Records, updated: Records, owner: u64)
    requires forall r: PosixLockRecord | r.owner != owner :: r in rows <==> r in updated
    ensures forall r :: r in OfOwner(rows, owner, false) + OfOwner(updated, owner, true) <==> r in updated
    ensures Tidy(rows) && Tidy(updated) ==> Tidy(OfOwner(rows, owner, false) + OfOwner(updated, owner, true))
  {
    if Tidy(rows) && Tidy(updated) {
      FilterKeepsDisjoint(rows, owner, false);
      FilterKeepsDisjoint(updated, owner, true);
      DisjointAppend(OfOwner(rows, owner, false), OfOwner(updated, owner, true));
    }
  }

  lemma SameMembersHeld(a: Records, b: Records)
    requires forall r :: r in a <==> r in b
    ensures forall h, v :: Held(a, h, v) <==> Held(b, h, v)
  {
  }

  // ---- a granted request

  /** Exactly the owner's bytes of the range now have the requested mode. */
  ghost predicate RangeSet(before: Records, after: Records, owner: u64, start: u64, end: u64, typ: i32, pid: u32) {
    forall h, b :: Held(after, h, b) <==>
      if h.owner == owner && start <= b <= end then typ != F_UNLCK && h == Holder(owner, typ, pid)
      else Held(before, h, b)
  }

  /** The record a lock request adds; an unlock adds none. */
  function Requested(owner: u64, start: u64, end: u64, typ: i32, pid: u32): Option<PosixLockRecord> {
    if typ != F_UNLCK then Some(PosixLockRecord(owner, typ, start, Some(end), pid)) else None
  }

  /** The list after a granted request or an unlock. */
  function Updated(records: Records, owner: u64, start: u64, end: u64, typ: i32, pid: u32): Records {
    Cleared(records, owner, start, end) + Replacement(Requested(owner, start, end, typ, pid))
  }

  /** The new list of a granted request or an unlock. */
  method SetRange(records: Records, owner: u64, start: u64, end: u64, typ: i32, pid: u32) returns (updated: Records)
    requires LocksOk(records)
    requires typ != F_UNLCK ==> !Conflicts(records, owner, typ, start, end)
    ensures updated == Updated(records, owner, start, end, typ, pid)
    ensures LocksOk(updated) && RangeSet(records, updated, owner, start, end, typ, pid)
    ensures forall r: PosixLockRecord | r.owner != owner :: r in records <==> r in updated
    ensures start <= end && Tidy(records) ==> Tidy(updated)
  {
    var replacement := Requested(owner, start, end, typ, pid);
    updated := UpdateOwnerLockRange(records, owner, start, end, replacement);
    UpdateKeepsOk(records, owner, start, end, replacement);
    if start <= end && Tidy(records) { UpdateKeepsTidy(records, owner, start, end, replacement); }
    forall h, b ensures Held(updated, h, b) <==>
      if h.owner == owner && start <= b <= end then typ != F_UNLCK && h == Holder(owner, typ, pid)
      else Held(records, h, b)
    {
      UpdateMeaning(records, owner, start, end, replacement, h, b);
    }
    forall q: PosixLockRecord | q.owner != owner ensures q in records <==> q in updated {
      ClearedKeepsOthers(records, owner, start, end, q);
    }
  }

  /** The request cuts overlapping pieces out of a record: it ends before the byte it starts after. */
  predicate CutsTwice(records: Records, owner: u64, start: u64, end: u64) {
    && end as int + 1 < start as int
    && exists r | r in records :: r.owner == owner && RangeOverlaps(start, Some(end), r.start, r.end)
  }

  /** A tidy table stays tidy exactly when a lock request is not inverted, and an unlock does not
      cut some record of the owner into two overlapping pieces. */
  lemma StaysTidyIff(records: Records, owner: u64, start: u64, end: u64, typ: i32, pid: u32)
    requires Tidy(records)
    ensures Tidy(Updated(records, owner, start, end, typ, pid)) <==>
            if typ != F_UNLCK then start <= end else !CutsTwice(records, owner, start, end)
  {
    var replacement := Requested(owner, start, end, typ, pid);
    if start <= end || (typ == F_UNLCK && start as int == end as int + 1) {
      UpdateKeepsTidy(records, owner, start, end, replacement);
    } else if typ != F_UNLCK {
      assert replacement.value in Updated(records, owner, start, end, typ, pid) && !WellFormed(replacement.value);
    } else if CutsTwice(records, owner, start, end) {
      var r :| r in records && r.owner == owner && RangeOverlaps(start, Some(end), r.start, r.end);
      OverlappingPieces(records, owner, start, end, r);
      assert Updated(records, owner, start, end, typ, pid) == Cleared(records, owner, start, end);
    } else {
      NothingCleared(records, owner, start, end);
      assert Updated(records, owner, start, end, typ, pid) == records;
    }
  }

  lemma OverlappingPieces(records: Records, owner: u64, start: u64, end: u64, r: PosixLockRecord)
    requires r in records && r.owner == owner && RangeOverlaps(start, Some(end), r.start, r.end)
    requires end as int + 1 < start as int
    ensures !OwnersDisjoint(Cleared(records, owner, start, end))
  {
    var cleared, low, high := Cleared(records, owner, start, end), r.(end := Some(start - 1)), r.(start := end + 1);
    assert low in Pieces(r, owner, start, end) && high in Pieces(r, owner, start, end);
    PieceIsKept(records, owner, start, end, r, low);
    PieceIsKept(records, owner, start, end, r, high);
    var m :| 0 <= m < |cleared| && cleared[m] == low;
    var n :| 0 <= n < |cleared| && cleared[n] == high;
    assert low.start < high.start && !Apart(cleared[m], cleared[n]) && !Apart(cleared[n], cleared[m]);
  }

  lemma {:induction false} PieceIsKept(records: Records, owner: u64, start: u64, end: u64, r: PosixLockRecord,
                                       p: PosixLockRecord)
    requires r in records && p in Pieces(r, owner, start, end)
    ensures p in Cleared(records, owner, start, end)
  {
    var last, rest := records[|records| - 1], records[..|records| - 1];
    if r != last { PieceIsKept(rest, owner, start, end, r, p); }
  }

  lemma {:induction false} NothingCleared(records: Records, owner: u64, start: u64, end: u64)
    requires forall n | 0 <= n < |records| ::
               records[n].owner != owner || !RangeOverlaps(start, Some(end), records[n].start, records[n].end)
    ensures Cleared(records, owner, start, end) == records
  {
    if records != [] {
      var n := |records| - 1;
      var rest, last := records[..n], records[n];
      NothingCleared(rest, owner, start, end);
      assert Pieces(last, owner, start, end) == [last];
      assert records == rest + [last];
    }
  }
}
