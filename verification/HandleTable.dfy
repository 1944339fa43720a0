/** Open handles and their buffered changes: which changes may wait in memory, and under which fence
    they reach the database. Overlay contents come from elsewhere; here a callback brings the
    overlay it leaves behind. */
module HandleTable {
  import opened Bytes

  /** Proof of write ownership of one file, checked by the database on every persist. */
  datatype Fence = Fence(file: nat, token: nat)

  datatype Handle = Handle(file: nat, writable: bool, ownership: Option<Fence>)

  datatype Buffered = Buffered(file: nat, size: nat, truncate: bool, bytes: nat, blocks: map<nat, Block>,
                               fence: Option<Fence>)

  predicate Pending(b: Buffered) { b.truncate || b.bytes > 0 || b.blocks != map[] }

  function NewState(file: nat, size: nat, truncate: bool): Buffered { Buffered(file, size, truncate, 0, map[], None) }

  /** What a flush leaves of a state. */
  function Emptied(b: Buffered): Buffered { b.(truncate := false, bytes := 0, blocks := map[]) }

  /** How a flush goes: it may fail before or during the persist call. */
  datatype Flushing = Succeeds | FailsBeforePersist | FailsInPersist

  /** A persist call: the state that was sent, and whether the database took it. */
  datatype Persist = Persist(state: Buffered, ok: bool)

  predicate Fenced(p: Persist) { p.state.fence.Some? && p.state.fence.value.file == p.state.file }

  /** States only left the table, and a pending one only by being persisted. */
  ghost predicate OnlyFlushed(before: map<nat, Buffered>, after: map<nat, Buffered>, log: seq<Persist>) {
    && (forall fh | fh in after :: fh in before && after[fh] == before[fh])
    && (forall fh | fh in before && fh !in after && Pending(before[fh]) :: Persist(before[fh], true) in log)
  }

  /** Some of a file's pending states are flushed, those in `todo` are still to come. */
  ghost predicate Progress(before: map<nat, Buffered>, states: map<nat, Buffered>, todo: set<nat>, file: nat,
                           except: Option<nat>, log: seq<Persist>)
  {
    && OnlyFlushed(before, states, log) && todo <= states.Keys
    && PendingOn(states, file, except) <= todo <= PendingOn(before, file, except)
    && forall fh | fh in before && fh !in PendingOn(before, file, except) :: fh in states
  }

  lemma ProgressStep(before: map<nat, Buffered>, states: map<nat, Buffered>, todo: set<nat>, file: nat,
                     except: Option<nat>, log: seq<Persist>, fh: nat)
    requires Progress(before, states, todo, file, except, log) && fh in todo
    ensures Progress(before, states - {fh}, todo - {fh}, file, except, log + [Persist(states[fh], true)])
    ensures forall p :: Progress(before, states, todo, file, except, log + [p])
  {
  }

  lemma FlushKeepsExclusive(handles: map<nat, Handle>, before: map<nat, Buffered>, after: map<nat, Buffered>,
                            log: seq<Persist>)
    requires OnlyFlushed(before, after, log) && Exclusive(handles, before)
    ensures Exclusive(handles, after)
  {
  }

  ghost predicate OthersKept(before: map<nat, Buffered>, after: map<nat, Buffered>, fh: nat) {
    forall g | g != fh :: (g in before <==> g in after) && (g in before ==> before[g] == after[g])
  }

  function OpenOn(handles: map<nat, Handle>, file: nat): set<nat> {
    set fh | fh in handles && handles[fh].file == file
  }

  function PendingOn(states: map<nat, Buffered>, file: nat, except: Option<nat>): set<nat> {
    set fh | fh in states && Some(fh) != except && states[fh].file == file && Pending(states[fh])
  }

  /** A buffered state belongs to an open handle of its file, and a pending one is fenced for it. */
  ghost predicate StateOk(handles: map<nat, Handle>, fh: nat, b: Buffered) {
    && fh in handles && handles[fh].file == b.file
    && (Pending(b) ==> b.fence.Some?)
    && (b.fence.Some? ==> b.fence.value.file == b.file)
  }

  ghost predicate StatesOk(handles: map<nat, Handle>, states: map<nat, Buffered>) {
    forall fh | fh in states :: StateOk(handles, fh, states[fh])
  }

  /** A file with two open handles has no buffered change. */
  ghost predicate Exclusive(handles: map<nat, Handle>, states: map<nat, Buffered>) {
    forall g, h | g in handles && h in handles && g != h && handles[g].file == handles[h].file ::
      g in states ==> !Pending(states[g])
  }

  /** So at most one handle of a file has one, and seen from an open handle nobody else does. */
  lemma ExclusiveMeaning(handles: map<nat, Handle>, states: map<nat, Buffered>, fh: nat)
    requires StatesOk(handles, states) && Exclusive(handles, states) && fh in handles
    ensures PendingOn(states, handles[fh].file, Some(fh)) == {}
    ensures |OpenOn(handles, handles[fh].file)| > 1 ==> PendingOn(states, handles[fh].file, None) == {}
    ensures forall g, h | g in states && h in states && Pending(states[g]) && Pending(states[h]) ::
              states[g].file == states[h].file ==> g == h
  {
    var file := handles[fh].file;
    forall g | g in states && g != fh && states[g].file == file ensures !Pending(states[g]) {
      assert StateOk(handles, g, states[g]);
    }
    forall g, h | g in states && h in states && Pending(states[g]) && Pending(states[h])
      ensures states[g].file == states[h].file ==> g == h
    {
      assert StateOk(handles, g, states[g]) && StateOk(handles, h, states[h]);
    }
    if |OpenOn(handles, file)| > 1 {
      var other := Another(OpenOn(handles, file), fh);
      forall g | g in states && states[g].file == file ensures !Pending(states[g]) {
        assert StateOk(handles, g, states[g]);
        var h := if g == fh then other else fh;
        assert h in handles && g != h;
      }
    }
  }

  lemma Another(s: set<nat>, x: nat) returns (y: nat)
    requires |s| > 1
    ensures y in s && y != x
  {
    assert |s - {x}| >= |s| - 1 by { assert s <= (s - {x}) + {x}; SubsetSize(s, (s - {x}) + {x}); }
    y :| y in s - {x};
  }

  /** The effect of earlier writes through another handle, taken over before the current write. */
  function Merged(target: Buffered, source: Buffered, blockSize: nat): (r: Buffered)
    ensures r.file == target.file && r.fence == target.fence
  {
    var size := if source.truncate || source.size > target.size then source.size else target.size;
    var kept := if source.truncate then map i | i in target.blocks && SatStart(i, blockSize) < size :: target.blocks[i]
                else target.blocks;
    Buffered(target.file, size, target.truncate || source.truncate, SatAdd(target.bytes, source.bytes),
             kept + source.blocks, target.fence)
  }

  /** The state after merging the siblings in this order. */
  function MergedIn(state: Buffered, siblings: map<nat, Buffered>, order: seq<nat>, blockSize: nat): Buffered
    requires forall g | g in order :: g in siblings
  {
    if order == [] then state
    else
      var n := |order| - 1;
      Merged(MergedIn(state, siblings, order[..n], blockSize), siblings[order[n]], blockSize)
  }

  /** Block `i` after merging: the last sibling that has it supplies it, unless a sibling merged later
      truncates below it. */
  function LastBlock(state: Buffered, siblings: map<nat, Buffered>, order: seq<nat>, blockSize: nat,
                     i: nat): Option<Block>
    requires forall g | g in order :: g in siblings
  {
    if order == [] then if i in state.blocks then Some(state.blocks[i]) else None
    else
      var n := |order| - 1;
      var last := siblings[order[n]];
      if i in last.blocks then Some(last.blocks[i])
      else if last.truncate && SatStart(i, blockSize) >= last.size then None
      else LastBlock(state, siblings, order[..n], blockSize, i)
  }

  /** The size after merging: that of the last truncating sibling, or whatever later ones grow it to. */
  function LastSize(state: Buffered, siblings: map<nat, Buffered>, order: seq<nat>): nat
    requires forall g | g in order :: g in siblings
  {
    if order == [] then state.size
    else
      var n := |order| - 1;
      var last := siblings[order[n]];
      if last.truncate then last.size else Max(LastSize(state, siblings, order[..n]), last.size)
  }

  lemma {:induction false} MergedInMeaning(state: Buffered, siblings: map<nat, Buffered>, order: seq<nat>,
                                           blockSize: nat, i: nat)
    requires forall g | g in order :: g in siblings
    ensures var merged := MergedIn(state, siblings, order, blockSize);
            && LastBlock(state, siblings, order, blockSize, i)
               == (if i in merged.blocks then Some(merged.blocks[i]) else None)
            && merged.size == LastSize(state, siblings, order)
            && (merged.truncate <==> state.truncate || exists g | g in order :: siblings[g].truncate)
            && merged.file == state.file && merged.fence == state.fence
  {
    if order != [] {
      var n := |order| - 1;
      MergedInMeaning(state, siblings, order[..n], blockSize, i);
      assert order == order[..n] + [order[n]];
    }
  }

  ghost predicate NoTruncate(siblings: map<nat, Buffered>) { forall g | g in siblings :: !siblings[g].truncate }

  predicate HasBlock(siblings: map<nat, Buffered>, g: nat, i: nat) { g in siblings && i in siblings[g].blocks }

  /** The blocks are the target's and those of the siblings merged so far, a sibling's winning over the target's. */
  ghost predicate MergedFrom(merged: Buffered, state: Buffered, siblings: map<nat, Buffered>, done: set<nat>) {
    && (forall i | i in state.blocks :: i in merged.blocks)
    && (forall g, i | g in done && HasBlock(siblings, g, i) :: i in merged.blocks)
    && (forall i | i in merged.blocks ::
          || (i in state.blocks && merged.blocks[i] == state.blocks[i]
              && forall g | g in done :: !HasBlock(siblings, g, i))
          || (exists g | g in done :: HasBlock(siblings, g, i) && siblings[g].blocks[i] == merged.blocks[i]))
  }

  lemma MergeOne(merged: Buffered, state: Buffered, siblings: map<nat, Buffered>, done: set<nat>, g: nat,
                 blockSize: nat)
    requires MergedFrom(merged, state, siblings, done) && g in siblings && NoTruncate(siblings)
    ensures MergedFrom(Merged(merged, siblings[g], blockSize), state, siblings, done + {g})
  {
    var after := Merged(merged, siblings[g], blockSize);
    forall i | i in after.blocks
      ensures (i in state.blocks && after.blocks[i] == state.blocks[i]
               && forall h | h in done + {g} :: !HasBlock(siblings, h, i))
           || (exists h | h in done + {g} :: HasBlock(siblings, h, i) && siblings[h].blocks[i] == after.blocks[i])
    {
      if HasBlock(siblings, g, i) {
        assert g in done + {g} && siblings[g].blocks[i] == after.blocks[i];
      } else {
        assert i in merged.blocks && after.blocks[i] == merged.blocks[i];
        if exists h | h in done :: HasBlock(siblings, h, i) && siblings[h].blocks[i] == merged.blocks[i] {
          var h :| h in done && HasBlock(siblings, h, i) && siblings[h].blocks[i] == merged.blocks[i];
          assert h in done + {g};
        }
      }
    }
  }

  /** What a write meets on its way. */
  datatype Course = Course(sizeFails: bool, same: bool, updateFails: bool, flushing: Flushing)

  datatype WriteReply = Written | SizeUnknown | NoFence | UpdateFailed | FlushFailed

  /** A state with one more write in it. */
  function Grown(b: Buffered, fence: Option<Fence>, len: nat, overlay: map<nat, Block>, size: nat): Buffered {
    Buffered(b.file, Max(b.size, size), b.truncate, SatAdd(b.bytes, len), b.blocks + overlay, fence)
  }

  /** What a write through an unshared table leaves of the state it took. */
  ghost predicate Leaves(taken: Buffered, after: Option<Buffered>, reply: WriteReply, mustFlush: bool, len: nat,
                         overlay: map<nat, Block>, size: nat)
  {
    match reply
    case Written => if mustFlush then after.None?
                    else after.Some? && after.value == Grown(taken, after.value.fence, len, overlay, size)
    case FlushFailed => mustFlush && after.Some? && after.value == Grown(taken, after.value.fence, len, overlay, size)
    case UpdateFailed => after.Some? && after.value == taken.(fence := after.value.fence)
    case NoFence => after == Some(taken)
    case SizeUnknown => after.None?
  }

  function StateOf(states: map<nat, Buffered>, fh: nat): Option<Buffered> {
    if fh in states then Some(states[fh]) else None
  }

  /** Ownership of this very file. */
  predicate IsFor(ownership: Option<Fence>, file: nat) { ownership.Some? && ownership.value.file == file }

  /** Every pending state that is done has flushed. */
  ghost predicate DoneWell(before: map<nat, Buffered>, todo: set<nat>, file: nat, except: Option<nat>,
                           faults: map<nat, Flushing>)
  {
    forall fh | fh in PendingOn(before, file, except) && fh !in todo :: How(faults, fh).Succeeds?
  }

  /** Every pending state of the file flushes. */
  predicate AllFlush(states: map<nat, Buffered>, file: nat, except: Option<nat>, faults: map<nat, Flushing>) {
    forall fh | fh in PendingOn(states, file, except) :: How(faults, fh).Succeeds?
  }

  function How(faults: map<nat, Flushing>, fh: nat): Flushing { if fh in faults then faults[fh] else Succeeds }

  /** How the database answers an adoption. */
  datatype Adoption = Adopts | Declines | Fails

  datatype AdoptReply = Adopted | Declined | AdoptFailed

  class HandleTable {
    /** A client session exists; without one no fence can be made. */
    const session: bool
    const blockSize: nat
    const flushThreshold: nat
    var handles: map<nat, Handle>
    var states: map<nat, Buffered>
    /** Every persist call made so far. */
    ghost var persists: seq<Persist>

    /** A write could not flush a shared file, or a create met a file with buffered changes. */
    ghost var trouble: bool

    /** Each pending change is fenced, and so was every persist call. */
    ghost predicate AllFenced()
      reads this`handles, this`states, this`persists
    {
      StatesOk(handles, states) && forall p | p in persists :: Fenced(p)
    }

    /** What every callback keeps. */
    ghost predicate Valid()
      reads this
    {
      AllFenced() && (!trouble ==> OneWriter())
    }

    ghost predicate OneWriter()
      reads this`handles, this`states
    {
      Exclusive(handles, states)
    }

    constructor (session: bool, blockSize: nat, flushThreshold: nat)
      ensures Valid() && !trouble && handles == map[] && states == map[] && persists == []
      ensures this.session == session && this.blockSize == blockSize && this.flushThreshold == flushThreshold
    {
      this.session, this.blockSize, this.flushThreshold := session, blockSize, flushThreshold;
      handles, states, persists, trouble := map[], map[], [], false;
    }

    function FenceFor(fh: nat): Option<Fence>
      reads this`handles
    {
      if session && fh in handles then handles[fh].ownership else None
    }

    /** The handle's state has a fence, or the handle owns one for its file. */
    predicate HasFence(fh: nat, before: map<nat, Buffered>)
      requires fh in handles
      reads this`handles
    {
      (fh in before && before[fh].fence.Some?) || IsFor(FenceFor(fh), handles[fh].file)
    }

    /** Refused without ownership of the state's own file; a fence once attached stays. */
    method AttachFence(fh: nat, b: Buffered) returns (fenced: Option<Buffered>)
      ensures fenced.Some? ==> fenced.value == b.(fence := fenced.value.fence) && fenced.value.fence.Some?
      ensures fenced.Some? && (b.fence.Some? ==> b.fence.value.file == b.file) ==>
                fenced.value.fence.value.file == b.file
      ensures b.fence.Some? ==> fenced == Some(b)
      ensures b.fence.None? ==>
                fenced == if FenceFor(fh).Some? && FenceFor(fh).value.file == b.file
                          then Some(b.(fence := FenceFor(fh))) else None
    {
      if b.fence.Some? { return Some(b); }
      var fence := FenceFor(fh);
      if fence.None? || fence.value.file != b.file { return None; }
      return Some(b.(fence := fence));
    }

    /** One flush: at most one persist call, with the fence of the state. */
    method Flush(b: Buffered, how: Flushing) returns (ok: bool, after: Buffered)
      requires b.fence.Some? && b.fence.value.file == b.file
      modifies this`persists
      ensures ok == how.Succeeds? && after == if ok then Emptied(b) else b
      ensures persists == old(persists) + if how.FailsBeforePersist? then [] else [Persist(b, ok)]
    {
      if how.FailsBeforePersist? { return false, b; }
      persists := persists + [Persist(b, how.Succeeds?)];
      if how.FailsInPersist? { return false, b; }
      return true, Emptied(b);
    }

    // ---- flushing what waits

    /** Flushes the pending states of a file, stopping at the first failure. */
    method FlushPendingExcept(file: nat, except: Option<nat>, faults: map<nat, Flushing>)
      returns (ok: bool, ghost log: seq<Persist>)
      requires AllFenced()
      modifies this`states, this`persists
      ensures AllFenced() && (ok <==> AllFlush(old(states), file, except, faults))
      ensures ok ==> PendingOn(states, file, except) == {}
      ensures persists == old(persists) + log && OnlyFlushed(old(states), states, log)
      ensures forall fh | fh in old(states) && fh !in PendingOn(old(states), file, except) :: fh in states
    {
      var todo := PendingOn(states, file, except);
      log := [];
      while todo != {}
        invariant AllFenced() && persists == old(persists) + log
        invariant Progress(old(states), states, todo, file, except, log)
        invariant DoneWell(old(states), todo, file, except, faults)
        decreases |todo|
      {
        var fh :| fh in todo;
        ProgressStep(old(states), states, todo, file, except, log, fh);
        var done, sent := FlushOne(fh, How(faults, fh));
        log := log + sent;
        if !done { return false, log; }
        todo := todo - {fh};
      }
      ok := true;
    }

    /** Flushes one pending state and takes it out of the table. */
    method FlushOne(fh: nat, how: Flushing) returns (ok: bool, ghost sent: seq<Persist>)
      requires AllFenced() && fh in states && Pending(states[fh])
      modifies this`states, this`persists
      ensures AllFenced() && ok == how.Succeeds? && states == if ok then old(states) - {fh} else old(states)
      ensures persists == old(persists) + sent
      ensures sent == if how.FailsBeforePersist? then [] else [Persist(old(states)[fh], ok)]
    {
      assert StateOk(handles, fh, states[fh]);
      var done, after := Flush(states[fh], how);
      sent := if how.FailsBeforePersist? then [] else [Persist(states[fh], done)];
      if done { states := states - {fh}; }
      ok := done;
    }

    /** fsync, flush and the first half of release. */
    method FlushHandle(fh: nat, how: Flushing) returns (ok: bool, ghost log: seq<Persist>)
      requires AllFenced()
      modifies this`states, this`persists
      ensures AllFenced() && (old(OneWriter()) ==> OneWriter())
      ensures ok && fh in states ==> !Pending(states[fh])
      ensures persists == old(persists) + log && OnlyFlushed(old(states), states, log)
      ensures OthersKept(old(states), states, fh)
      ensures ok <==> how.Succeeds? || fh !in old(states) || !Pending(old(states)[fh])
      ensures !ok ==>
                fh in old(states) && Pending(old(states)[fh]) && states == old(states) && forall p | p in log :: !p.ok
    {
      if fh !in states || !Pending(states[fh]) { return true, []; }
      assert StateOk(handles, fh, states[fh]);
      var fenced := AttachFence(fh, states[fh]);
      if fenced.None? { return false, []; }
      ok, log := FlushOne(fh, how);
    }

    // ---- handles

    /** A truncating state of its own for a handle: fenced, flushed and not kept. */
    method PersistTruncate(fh: nat, file: nat, size: nat, how: Flushing) returns (ok: bool, ghost sent: seq<Persist>)
      requires AllFenced()
      modifies this`persists
      ensures AllFenced()
      ensures ok <==> how.Succeeds? && FenceFor(fh).Some? && FenceFor(fh).value.file == file
      ensures persists == old(persists) + sent
      ensures (ok ==> sent == [Persist(NewState(file, size, true).(fence := FenceFor(fh)), true)])
    {
      var fenced := AttachFence(fh, NewState(file, size, true));
      if fenced.None? { return false, []; }
      var done, after := Flush(fenced.value, how);
      return done, if how.FailsBeforePersist? then [] else [Persist(fenced.value, done)];
    }

    /** Opening publishes what other handles of the file have buffered, before the new handle is used;
        if that fails the open fails. A reader's handle is added afterwards. */
    method OpenForReading(fh: nat, file: nat, faults: map<nat, Flushing>) returns (ok: bool, ghost log: seq<Persist>)
      requires Valid() && fh !in handles
      modifies this`handles, this`states, this`persists
      ensures Valid()
      ensures handles == if ok then old(handles)[fh := Handle(file, false, None)] else old(handles)
      ensures persists == old(persists) + log && OnlyFlushed(old(states), states, log)
      ensures ok ==> PendingOn(states, file, None) == {}
      ensures ok <==> AllFlush(old(states), file, None, faults)
    {
      ok, log := Publish(handles, fh, file, false, faults);
      if !ok { return; }
      NewHandleExclusive(handles, states, fh, Handle(file, false, None));
      handles := handles[fh := Handle(file, false, None)];
    }

    /** A writer's handle comes first, so that ownership is held before anything is flushed; it goes
        again if the flush or the truncation fails. */
    method OpenForWriting(fh: nat, file: nat, ownership: Option<Fence>, truncate: bool, faults: map<nat, Flushing>,
                          truncation: Flushing)
      returns (ok: bool, ghost log: seq<Persist>)
      requires Valid() && fh !in handles
      modifies this`handles, this`states, this`persists
      ensures Valid()
      ensures handles == if ok then old(handles)[fh := Handle(file, true, ownership)] else old(handles)
      ensures persists == old(persists) + log && OnlyFlushed(old(states), states, log)
      ensures ok ==> PendingOn(states, file, None) == {}
      ensures ok <==> AllFlush(old(states), file, None, faults)
                      && (truncate ==> truncation.Succeeds? && session && IsFor(ownership, file))
      ensures ok && truncate ==>
                log != [] && log[|log| - 1] == Persist(NewState(file, 0, true).(fence := FenceFor(fh)), true)
    {
      handles := handles[fh := Handle(file, true, ownership)];
      assert handles - {fh} == old(handles);
      ok, log := Publish(old(handles), fh, file, true, faults);
      if ok && truncate {
        ghost var sent;
        ok, sent := PersistTruncate(fh, file, 0, truncation);
        log := log + sent;
      }
      if !ok {
        handles := handles - {fh};
        return;
      }
      NewHandleExclusive(old(handles), states, fh, handles[fh]);
    }

    /** With other handles on the file, what they have buffered is flushed. */
    method Publish(ghost before: map<nat, Handle>, fh: nat, file: nat, writable: bool, faults: map<nat, Flushing>)
      returns (ok: bool, ghost log: seq<Persist>)
      requires AllFenced() && StatesOk(before, states) && fh !in before
      requires if writable then fh in handles && handles[fh].file == file && handles - {fh} == before
               else handles == before
      modifies this`states, this`persists
      ensures AllFenced() && StatesOk(before, states)
      ensures ok ==> PendingOn(states, file, None) == {}
      ensures ok <==> AllFlush(old(states), file, None, faults)
      ensures persists == old(persists) + log && OnlyFlushed(old(states), states, log)
      ensures Exclusive(before, old(states)) ==> Exclusive(before, states)
    {
      ok, log := true, [];
      if |OpenOn(handles, file)| > (if writable then 1 else 0) {
        ok, log := FlushPendingExcept(file, None, faults);
        if Exclusive(before, old(states)) { FlushKeepsExclusive(before, old(states), states, log); }
      } else {
        NobodyElse(before, handles, states, fh, file, writable);
      }
    }

    /** Creating adds a handle without publishing: a file that is new has none, but one found under the
        name after all may have a local handle with buffered changes. */
    method Create(fh: nat, file: nat, writable: bool, ownership: Option<Fence>, truncate: bool, truncation: Flushing)
      returns (ok: bool)
      requires Valid() && fh !in handles
      modifies this
      ensures Valid()
      ensures trouble == (old(trouble) || (ok && PendingOn(states, file, None) != {}))
      ensures handles == if ok then old(handles)[fh := Handle(file, writable, if writable then ownership else None)]
                         else old(handles)
      ensures states == old(states)
      ensures ok <==> !(writable && truncate) || (truncation.Succeeds? && session && IsFor(ownership, file))
      ensures ok && writable && truncate ==>
                persists == old(persists) + [Persist(NewState(file, 0, true).(fence := ownership), true)]
      ensures ok && !(writable && truncate) ==> persists == old(persists)
      ensures old(OneWriter()) && ok ==> (OneWriter() <==> PendingOn(states, file, None) == {})
      ensures file !in (set g | g in old(handles) :: old(handles)[g].file) ==> PendingOn(states, file, None) == {}
    {
      handles := handles[fh := Handle(file, writable, if writable then ownership else None)];
      if writable && truncate {
        ghost var sent;
        ok, sent := PersistTruncate(fh, file, 0, truncation);
        if !ok {
          handles := handles - {fh};
          assert handles == old(handles);
          return;
        }
      }
      NewHandleExclusive(old(handles), states, fh, handles[fh]);
      trouble := trouble || PendingOn(states, file, None) != {};
      ok := true;
    }

    /** Release flushes; the handle and its state go in any case. When the final flush fails the buffered
        changes are lost: they leave the table without a persist call that succeeded. */
    method Release(fh: nat, how: Flushing) returns (ok: bool, ghost log: seq<Persist>)
      requires Valid()
      modifies this`handles, this`states, this`persists
      ensures Valid()
      ensures handles == old(handles) - {fh} && fh !in states && OthersKept(old(states), states, fh)
      ensures persists == old(persists) + log
      ensures ok <==> how.Succeeds? || fh !in old(states) || !Pending(old(states)[fh])
      ensures ok ==> OnlyFlushed(old(states), states, log)
      ensures !ok ==> fh in old(states) && Pending(old(states)[fh]) && forall p | p in log :: !p.ok
    {
      ok, log := FlushHandle(fh, how);
      handles, states := handles - {fh}, states - {fh};
    }

    // ---- setattr

    /** Truncation through a handle flushes at once; a failure leaves the table as it was. */
    method Truncate(fh: nat, size: nat, how: Flushing) returns (ok: bool)
      requires Valid()
      modifies this`states, this`persists
      ensures Valid()
      ensures states == if ok then old(states) - {fh} else old(states)
      ensures ok <==> fh in handles && handles[fh].writable && how.Succeeds? && HasFence(fh, old(states))
      ensures ok ==> |persists| == |old(persists)| + 1 && fh in handles
                     && persists[|old(persists)|] == Persist(Buffered(handles[fh].file, size, true,
                          if fh in old(states) then old(states)[fh].bytes else 0,
                          if fh in old(states) then old(states)[fh].blocks else map[],
                          persists[|old(persists)|].state.fence), true)
    {
      if fh !in handles || !handles[fh].writable { return false; }
      var file := handles[fh].file;
      assert fh in states ==> StateOk(handles, fh, states[fh]);
      var state := if fh in states then states[fh] else NewState(file, size, true);
      var fenced := AttachFence(fh, state.(file := file, size := size, truncate := true));
      if fenced.None? { return false; }
      var done, after := Flush(fenced.value, how);
      if !done { return false; }
      states := states - {fh};
      return true;
    }

    /** Truncation by path goes through a handle of its own, so that it too is fenced. */
    method TruncatePath(fh: nat, file: nat, size: nat, ownership: Option<Fence>, how: Flushing) returns (ok: bool)
      requires Valid() && fh !in handles
      modifies this`handles, this`persists
      ensures Valid() && handles == old(handles)
      ensures ok <==> how.Succeeds? && session && IsFor(ownership, file)
      ensures ok ==> persists == old(persists) + [Persist(NewState(file, size, true).(fence := ownership), true)]
    {
      handles := handles[fh := Handle(file, true, ownership)];
      ghost var sent;
      ok, sent := PersistTruncate(fh, file, size, how);
      handles := handles - {fh};
      assert handles == old(handles);
    }

    // ---- writing

    /** Takes the handle's own state and the pending states of other handles out of the table. While one
        writer at most has buffered changes there are no such others, so nothing is ever merged. */
    method TakeStates(fh: nat, size: nat) returns (own: Option<Buffered>, taken: Buffered, siblings: map<nat, Buffered>)
      requires AllFenced() && fh in handles
      modifies this`states
      ensures own == if fh in old(states) then Some(old(states)[fh]) else None
      ensures taken == if own.Some? then own.value else NewState(handles[fh].file, size, false)
      ensures siblings.Keys == PendingOn(old(states), handles[fh].file, Some(fh))
      ensures forall g | g in siblings :: siblings[g] == old(states)[g]
      ensures states == old(states) - {fh} - siblings.Keys
      ensures AllFenced() && StateOk(handles, fh, taken) && StatesOk(handles, siblings)
      ensures old(OneWriter()) ==> siblings == map[]
    {
      var file := handles[fh].file;
      own := if fh in states then Some(states[fh]) else None;
      taken := if own.Some? then own.value else NewState(file, size, false);
      assert own.Some? ==> StateOk(handles, fh, own.value);
      var others := PendingOn(states, file, Some(fh));
      siblings := map g | g in others :: states[g];
      if Exclusive(handles, states) { ExclusiveMeaning(handles, states, fh); }
      states := states - {fh} - others;
    }

    /** Puts back what a failed write took out. */
    method PutBack(fh: nat, own: Option<Buffered>, siblings: map<nat, Buffered>)
      requires StatesOk(handles, siblings) && StatesOk(handles, states) && fh !in siblings
      requires own.Some? ==> StateOk(handles, fh, own.value)
      modifies this`states
      ensures StatesOk(handles, states)
      ensures states == (if own.Some? then old(states)[fh := own.value] else old(states)) + siblings
    {
      if own.Some? { states := states[fh := own.value]; }
      states := states + siblings;
    }

    /** Merging takes the siblings one after the other, each once. Without truncating siblings the
        order does not decide which blocks there are; with no sibling nothing changes. */
    method MergeAll(state: Buffered, siblings: map<nat, Buffered>) returns (merged: Buffered, ghost order: seq<nat>)
      ensures multiset(order) == multiset(siblings.Keys) && forall g | g in order :: g in siblings
      ensures merged == MergedIn(state, siblings, order, blockSize)
      ensures merged.file == state.file && merged.fence == state.fence
      ensures siblings == map[] ==> merged == state
      ensures NoTruncate(siblings) ==> MergedFrom(merged, state, siblings, siblings.Keys)
    {
      merged, order := state, [];
      var todo := siblings.Keys;
      ghost var done: set<nat> := {};
      while todo != {}
        invariant multiset(order) == multiset(done) && done !! todo && forall g | g in order :: g in siblings
        invariant merged == MergedIn(state, siblings, order, blockSize)
        invariant done + todo == siblings.Keys && merged.file == state.file && merged.fence == state.fence
        invariant siblings == map[] ==> merged == state
        invariant NoTruncate(siblings) ==> MergedFrom(merged, state, siblings, done)
        decreases |todo|
      {
        var g :| g in todo;
        if NoTruncate(siblings) { MergeOne(merged, state, siblings, done, g, blockSize); }
        merged := Merged(merged, siblings[g], blockSize);
        assert (order + [g])[..|order|] == order;
        order := order + [g];
        done, todo := done + {g}, todo - {g};
      }
    }

    /** The merge inside a write, which needs only that the target keeps its file and fence. */
    method MergeTaken(state: Buffered, siblings: map<nat, Buffered>) returns (merged: Buffered)
      ensures merged.file == state.file && merged.fence == state.fence
      ensures siblings == map[] ==> merged == state
    {
      ghost var order;
      merged, order := MergeAll(state, siblings);
    }

    /** Over the threshold, or on a file that is open elsewhere too, changes do not stay buffered. */
    predicate MustFlush(file: nat, bytes: nat)
      reads this`handles
    {
      (flushThreshold > 0 && bytes >= flushThreshold) || |OpenOn(handles, file)| > 1
    }

    /** The flush decision: a state over the threshold or on a shared file does not stay buffered. */
    method Settle(fh: nat, state: Buffered, siblings: map<nat, Buffered>, how: Flushing) returns (ok: bool)
      requires AllFenced() && StateOk(handles, fh, state) && Pending(state) && StatesOk(handles, siblings)
      requires fh !in states && fh !in siblings
      modifies this`states, this`persists
      ensures AllFenced()
      ensures ok ==> states == if MustFlush(state.file, state.bytes) then old(states) else old(states)[fh := state]
      ensures ok <==> !MustFlush(state.file, state.bytes) || how.Succeeds?
      ensures !ok ==> MustFlush(state.file, state.bytes) && states == old(states)[fh := state] + siblings
      ensures persists == old(persists) + if MustFlush(state.file, state.bytes) && !how.FailsBeforePersist?
                                          then [Persist(state, ok)] else []
    {
      if MustFlush(state.file, state.bytes) {
        var done, after := Flush(state, how);
        if !done {
          PutBack(fh, Some(state), siblings);
          return false;
        }
        return true;
      }
      states := states[fh := state];
      return true;
    }

    predicate Fenceable(fh: nat, b: Buffered)
      reads this`handles
    {
      b.fence.Some? || IsFor(FenceFor(fh), b.file)
    }

    /** The reply of a write that finds no other handle's changes. */
    function ReplyOf(before: map<nat, Buffered>, fh: nat, len: nat, size: nat, c: Course): WriteReply
      requires fh in handles
      reads this`handles
    {
      var taken := if fh in before then before[fh] else NewState(handles[fh].file, size, false);
      if fh !in before && c.sizeFails then SizeUnknown
      else if fh !in before && c.same then Written
      else if !Fenceable(fh, taken) then NoFence
      else if c.updateFails then UpdateFailed
      else if MustFlush(taken.file, SatAdd(taken.bytes, len)) && !c.flushing.Succeeds? then FlushFailed
      else Written
    }

    /** The fence a state is sent with. */
    function FenceOf(fh: nat, b: Buffered): Option<Fence>
      reads this`handles
    {
      if b.fence.Some? then b.fence else FenceFor(fh)
    }

    /** The persist calls of a write that finds no other handle's changes: one, with the new state, if it
        must be flushed. */
    function SentBy(before: map<nat, Buffered>, fh: nat, len: nat, overlay: map<nat, Block>, size: nat,
                    c: Course): seq<Persist>
      requires fh in handles
      reads this`handles
    {
      var taken := if fh in before then before[fh] else NewState(handles[fh].file, size, false);
      if (fh !in before && (c.sizeFails || c.same)) || !Fenceable(fh, taken) || c.updateFails
         || !MustFlush(taken.file, SatAdd(taken.bytes, len)) || c.flushing.FailsBeforePersist? then []
      else [Persist(Grown(taken, FenceOf(fh, taken), len, overlay, size), c.flushing.Succeeds?)]
    }

    /** The state a write leaves, from the state and the siblings it took. */
    method BufferWrite(fh: nat, taken: Buffered, siblings: map<nat, Buffered>, len: nat, overlay: map<nat, Block>,
                       size: nat, c: Course)
      returns (reply: WriteReply)
      requires AllFenced() && StateOk(handles, fh, taken) && StatesOk(handles, siblings) && len > 0
      requires fh !in states && fh !in siblings
      modifies this`states, this`persists
      ensures AllFenced()
      ensures reply == Written && |OpenOn(handles, taken.file)| > 1 ==> fh !in states
      ensures reply == NoFence <==> !Fenceable(fh, taken)
      ensures reply == UpdateFailed <==> Fenceable(fh, taken) && c.updateFails
      ensures reply == FlushFailed ==> !c.flushing.Succeeds?
      ensures reply == Written || reply == NoFence || reply == UpdateFailed || reply == FlushFailed
      ensures siblings == map[] ==>
                && (reply == FlushFailed <==> Fenceable(fh, taken) && !c.updateFails && !c.flushing.Succeeds?
                                              && MustFlush(taken.file, SatAdd(taken.bytes, len)))
                && persists == old(persists) +
                   (if !Fenceable(fh, taken) || c.updateFails || !MustFlush(taken.file, SatAdd(taken.bytes, len))
                       || c.flushing.FailsBeforePersist? then []
                    else [Persist(Grown(taken, FenceOf(fh, taken), len, overlay, size), c.flushing.Succeeds?)])
                && OthersKept(old(states), states, fh)
                && Leaves(taken, StateOf(states, fh), reply, MustFlush(taken.file, SatAdd(taken.bytes, len)), len,
                          overlay, size)
    {
      var fenced := AttachFence(fh, taken);
      if fenced.None? {
        PutBack(fh, Some(taken), siblings);
        return NoFence;
      }
      var state := MergeTaken(fenced.value, siblings);
      if c.updateFails {
        states := states[fh := state];
        return UpdateFailed;
      }
      state := Grown(state, state.fence, len, overlay, size);
      var ok := Settle(fh, state, siblings, c.flushing);
      return if ok then Written else FlushFailed;
    }

    /** Nothing but the handle's own state changed, and that as the reply says; a write that repeats
        stored bytes changes nothing. */
    ghost predicate WriteEffect(before: map<nat, Buffered>, fh: nat, len: nat, overlay: map<nat, Block>, size: nat,
                                c: Course, reply: WriteReply)
      requires fh in handles
      reads this`handles, this`states
    {
      var taken := if fh in before then before[fh] else NewState(handles[fh].file, size, false);
      || (fh !in before && reply == (if c.sizeFails then SizeUnknown else Written) && (c.sizeFails || c.same)
          && states == before)
      || (OthersKept(before, states, fh)
          && Leaves(taken, StateOf(states, fh), reply, MustFlush(taken.file, SatAdd(taken.bytes, len)), len, overlay,
                    size))
    }

    method WriteStates(fh: nat, len: nat, overlay: map<nat, Block>, size: nat, c: Course) returns (reply: WriteReply)
      requires AllFenced() && fh in handles && len > 0
      modifies this`states, this`persists
      ensures AllFenced() && (fh !in old(states) && c.sizeFails ==> states == old(states))
      ensures old(OneWriter()) ==> (OneWriter() <==> !(reply == FlushFailed && |OpenOn(handles, handles[fh].file)| > 1))
      ensures reply == Written && |OpenOn(handles, handles[fh].file)| > 1 ==> fh !in states
      ensures old(OneWriter()) ==> WriteEffect(old(states), fh, len, overlay, size, c, reply)
      ensures old(OneWriter()) ==> reply == ReplyOf(old(states), fh, len, size, c)
      ensures old(OneWriter()) ==> persists == old(persists) + SentBy(old(states), fh, len, overlay, size, c)
    {
      var own, taken, siblings := TakeStates(fh, size);
      if own.None? && (c.sizeFails || (siblings == map[] && c.same)) {
        AllBack(old(states), fh, siblings);
        PutBack(fh, own, siblings);
        return if c.sizeFails then SizeUnknown else Written;
      }
      reply := BufferWrite(fh, taken, siblings, len, overlay, size, c);
      if Exclusive(old(handles), old(states)) {
        EffectKeepsExclusive(handles, old(states), states, fh, taken, reply,
                             MustFlush(taken.file, SatAdd(taken.bytes, len)), len, overlay, size);
      }
    }

    /** A write buffers its data under a fence. It leaves at most one handle of the file with buffered
        changes, except in one case: the flush fails while the file is open more than once. */
    method Write(fh: nat, len: nat, overlay: map<nat, Block>, size: nat, c: Course) returns (reply: WriteReply)
      requires Valid() && fh in handles && len > 0
      modifies this`states, this`persists, this`trouble
      ensures Valid() && (fh !in old(states) && c.sizeFails ==> states == old(states))
      ensures trouble == (old(trouble) || (reply == FlushFailed && |OpenOn(handles, handles[fh].file)| > 1))
      ensures old(OneWriter()) ==> (OneWriter() <==> !(reply == FlushFailed && |OpenOn(handles, handles[fh].file)| > 1))
      ensures reply == Written && |OpenOn(handles, handles[fh].file)| > 1 ==> fh !in states
      ensures old(OneWriter()) ==> WriteEffect(old(states), fh, len, overlay, size, c, reply)
      ensures old(OneWriter()) ==> reply == ReplyOf(old(states), fh, len, size, c)
      ensures old(OneWriter()) ==> persists == old(persists) + SentBy(old(states), fh, len, overlay, size, c)
    {
      reply := WriteStates(fh, len, overlay, size, c);
      trouble := trouble || (reply == FlushFailed && |OpenOn(handles, handles[fh].file)| > 1);
    }

    // ---- the other callbacks

    /** Reading and seeking publish what other handles have buffered first. */
    method PublishOthers(file: nat, except: Option<nat>, faults: map<nat, Flushing>)
      returns (ok: bool, ghost log: seq<Persist>)
      requires Valid()
      modifies this`states, this`persists
      ensures Valid() && (ok <==> AllFlush(old(states), file, except, faults))
      ensures ok ==> PendingOn(states, file, except) == {}
      ensures persists == old(persists) + log && OnlyFlushed(old(states), states, log)
    {
      ok, log := FlushPendingExcept(file, except, faults);
      if Exclusive(handles, old(states)) { FlushKeepsExclusive(handles, old(states), states, log); }
    }

    /** A copy flushes at once and leaves an empty state behind; a failure leaves the table as it was. */
    method CopyRange(fh: nat, size: nat, overlay: map<nat, Block>, same: bool, how: Flushing) returns (ok: bool)
      requires Valid() && fh in handles
      modifies this`states, this`persists
      ensures Valid()
      ensures ok <==> HasFence(fh, old(states)) && (same || how.Succeeds?)
      ensures !ok || same ==> states == old(states)
      ensures ok && same ==> persists == old(persists)
      ensures ok && !same ==> fh in states && !Pending(states[fh]) && OthersKept(old(states), states, fh)
      ensures ok && !same ==> |persists| == |old(persists)| + 1
                              && var sent := persists[|old(persists)|];
                              sent.ok && states[fh] == Emptied(sent.state)
                              && sent.state.file == handles[fh].file
                              && sent.state.truncate == (fh in old(states) && old(states)[fh].truncate)
                              && sent.state.size == Max(if fh in old(states) then old(states)[fh].size else 0, size)
                              && sent.state.blocks
                                 == (if fh in old(states) then old(states)[fh].blocks else map[]) + overlay
    {
      assert fh in states ==> StateOk(handles, fh, states[fh]);
      var state := if fh in states then states[fh] else NewState(handles[fh].file, size, false);
      var fenced := AttachFence(fh, state);
      if fenced.None? { return false; }
      if same { return true; }
      var full := fenced.value.(size := Max(state.size, size), blocks := state.blocks + overlay);
      var done, after := Flush(full, how);
      if !done { return false; }
      states := states[fh := after];
      return true;
    }

    /** Taking over the source's data object passes the handle's own fence. A declined adoption leaves
        everything to the ordinary copy, a failed one fails the copy. */
    method Adopt(fh: nat, size: nat, course: Adoption) returns (reply: AdoptReply)
      requires Valid() && fh in handles && (fh in states ==> !Pending(states[fh]))
      modifies this`states, this`persists
      ensures Valid()
      ensures reply == if !Owns(fh) || course.Fails? then AdoptFailed
                       else if course.Declines? then Declined
                       else Adopted
      ensures persists == old(persists) + if Owns(fh) then [Persist(OwnState(fh, size), course.Adopts?)] else []
      ensures states == if reply.Adopted? && fh in old(states) then old(states)[fh := old(states)[fh].(size := size)]
                        else old(states)
    {
      var fence := FenceFor(fh);
      if fence.None? || fence.value.file != handles[fh].file { return AdoptFailed; }
      persists := persists + [Persist(NewState(handles[fh].file, size, false).(fence := fence), course.Adopts?)];
      if course.Fails? { return AdoptFailed; }
      if course.Declines? { return Declined; }
      if fh in states {
        assert StateOk(handles, fh, states[fh]);
        states := states[fh := states[fh].(size := size)];
      }
      return Adopted;
    }

    /** What a change of the stored blocks is sent with: the handle's file and its own fence. */
    function OwnState(fh: nat, size: nat): Buffered
      requires fh in handles
      reads this`handles
    {
      NewState(handles[fh].file, size, false).(fence := FenceFor(fh))
    }

    /** The handle has a fence for its own file. */
    predicate Owns(fh: nat)
      requires fh in handles
      reads this`handles
    {
      FenceFor(fh).Some? && FenceFor(fh).value.file == handles[fh].file
    }

    /** Punching a hole publishes every buffered change of the file, the handle's own included, and
        then changes the stored blocks under the handle's fence. */
    method PunchHole(fh: nat, size: nat, faults: map<nat, Flushing>, how: Flushing)
      returns (ok: bool, ghost log: seq<Persist>)
      requires Valid()
      modifies this`states, this`persists
      ensures Valid()
      ensures persists == old(persists) + log && OnlyFlushed(old(states), states, log) && (ok ==> fh in handles)
      ensures ok ==> PendingOn(states, handles[fh].file, None) == {} && log != []
                     && log[|log| - 1] == Persist(OwnState(fh, size), true)
      ensures ok <==> fh in handles && handles[fh].writable && AllFlush(old(states), handles[fh].file, None, faults)
                      && how.Succeeds? && Owns(fh)
    {
      if fh !in handles || !handles[fh].writable { return false, []; }
      ok, log := PublishOthers(handles[fh].file, None, faults);
      if !ok { return; }
      var fence := FenceFor(fh);
      if fence.None? || fence.value.file != handles[fh].file { return false, log; }
      var done, after := Flush(NewState(handles[fh].file, size, false).(fence := fence), how);
      log := log + if how.FailsBeforePersist? then []
                   else [Persist(NewState(handles[fh].file, size, false).(fence := fence), done)];
      return done, log;
    }
  }

  /** After a write that leaves the buffer at the threshold, or one on a shared file, nothing of the handle
      stays buffered; any other write keeps its data buffered. */
  lemma AcceptedWrite(t: HandleTable, before: map<nat, Buffered>, fh: nat, len: nat, overlay: map<nat, Block>,
                      size: nat, c: Course)
    requires fh in t.handles && len > 0 && t.WriteEffect(before, fh, len, overlay, size, c, Written)
    requires fh in before || !(c.sizeFails || c.same)
    requires fh in before ==> before[fh].file == t.handles[fh].file
    ensures var bytes := SatAdd(if fh in before then before[fh].bytes else 0, len);
            var full := t.flushThreshold > 0 && bytes >= t.flushThreshold;
            if full || |OpenOn(t.handles, t.handles[fh].file)| > 1 then fh !in t.states
            else fh in t.states && t.states[fh].bytes == bytes
                 && t.states[fh].size == Max(if fh in before then before[fh].size else 0, size)
                 && (forall i | i in overlay :: i in t.states[fh].blocks && t.states[fh].blocks[i] == overlay[i])
                 && forall i | fh in before && i in before[fh].blocks :: i in t.states[fh].blocks
  {
  }

  lemma AllBack(states: map<nat, Buffered>, fh: nat, siblings: map<nat, Buffered>)
    requires fh !in states && forall g | g in siblings :: g in states && siblings[g] == states[g]
    ensures (states - {fh} - siblings.Keys) + siblings == states
  {
  }

  /** A write keeps one writer exactly unless it failed to flush a file that is open elsewhere too. */
  lemma EffectKeepsExclusive(handles: map<nat, Handle>, before: map<nat, Buffered>, after: map<nat, Buffered>, fh: nat,
                             taken: Buffered,
                             reply: WriteReply, mustFlush: bool, len: nat, overlay: map<nat, Block>, size: nat)
    requires fh in handles && handles[fh].file == taken.file && Exclusive(handles, before) && len > 0
    requires if fh in before then taken == before[fh] else !Pending(taken)
    requires OthersKept(before, after, fh) && Leaves(taken, StateOf(after, fh), reply, mustFlush, len, overlay, size)
    requires |OpenOn(handles, taken.file)| > 1 ==> mustFlush
    ensures Exclusive(handles, after) <==> !(reply == FlushFailed && |OpenOn(handles, taken.file)| > 1)
  {
    var open := OpenOn(handles, taken.file);
    if |open| > 1 {
      var other := Another(open, fh);
      assert other in handles && handles[other].file == handles[fh].file;
    } else {
      forall h | h in handles && h != fh ensures handles[h].file != taken.file {
        if handles[h].file == taken.file { SubsetSize({h, fh}, open); }
      }
    }
  }

  /** With nobody else on the file there is nothing buffered for it. */
  lemma NobodyElse(before: map<nat, Handle>, handles: map<nat, Handle>, states: map<nat, Buffered>, fh: nat, file: nat,
                   writable: bool)
    requires StatesOk(before, states) && fh !in before
    requires if writable then fh in handles && handles[fh].file == file && handles - {fh} == before
             else handles == before
    requires |OpenOn(handles, file)| <= if writable then 1 else 0
    ensures PendingOn(states, file, None) == {}
  {
    forall g | g in states ensures states[g].file != file {
      assert StateOk(before, g, states[g]);
      if states[g].file == file {
        assert g in handles && g in OpenOn(handles, file);
        if writable { assert {g, fh} <= OpenOn(handles, file); SubsetSize({g, fh}, OpenOn(handles, file)); }
        else { SubsetSize({g}, OpenOn(handles, file)); }
      }
    }
  }

  lemma NewHandleExclusive(handles: map<nat, Handle>, states: map<nat, Buffered>, fh: nat, handle: Handle)
    requires StatesOk(handles, states) && fh !in handles
    ensures Exclusive(handles, states) ==>
              (Exclusive(handles[fh := handle], states) <==> PendingOn(states, handle.file, None) == {})
    ensures handle.file !in (set g | g in handles :: handles[g].file) ==> PendingOn(states, handle.file, None) == {}
  {
    forall g | g in states
      ensures g in handles && states[g].file == handles[g].file
    {
      assert StateOk(handles, g, states[g]);
    }
    var after := handles[fh := handle];
    forall g | g in PendingOn(states, handle.file, None)
      ensures !Exclusive(after, states) && handle.file in (set h | h in handles :: handles[h].file)
    {
      assert g in after && fh in after && g != fh;
    }
    if PendingOn(states, handle.file, None) == {} {
      forall g | g in states && states[g].file == handle.file
        ensures !Pending(states[g])
      {
        assert g !in PendingOn(states, handle.file, None);
      }
    }
  }
}
