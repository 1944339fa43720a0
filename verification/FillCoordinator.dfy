/** Coalescing of concurrent cache fills: one reader owns a flight for the block ranges it is
    fetching, readers that need an overlapping range sleep until it lands. */
module FillCoordinator {
  import opened Bytes
  import opened PersistPlan
  import Runs

  /** A flight's file and the ranges it claims never change; its done flag is set once. */
  datatype Flight = Flight(file: nat, ranges: seq<Range>)

  /** An owner marks its flight done, takes it off the list and notifies; a waiter looks at the
      flag, sleeps if it is not set, and looks again each time it is woken. */
  datatype Phase = Owning | Marked | Removed | Joined | Sleeping | Woken | Awake

  /** What a reader holds while it fills: the flight it owns or joined, and the blocks it is missing. */
  datatype Lease = Lease(flight: nat, phase: Phase, file: nat, missing: seq<nat>) {
    predicate IsOwner() { phase.Owning? || phase.Marked? || phase.Removed? }
  }

  datatype State = State(
    flights: map<nat, Flight>,      // every flight ever created
    done: set<nat>,                 // those whose flag is set
    table: map<nat, seq<nat>>,      // the live flights of each file
    leases: map<nat, Lease>,
    owners: map<nat, nat>)          // auxiliary: the lease that owns a flight

  datatype Step =
    | Acquire(l: nat, f: nat, missing: seq<nat>, ranges: seq<Range>, id: nat)
    | MarkDone(l: nat)
    | Unlist(l: nat)
    | Notify(l: nat)
    | Wait(l: nat)
    | WakeUp(l: nat)
    | Drop(l: nat)

  predicate RangesOverlap(a: seq<Range>, b: seq<Range>) {
    exists m, n | 0 <= m < |a| && 0 <= n < |b| :: a[m].0 <= b[n].1 && b[n].0 <= a[m].1
  }

  /** Two nonempty lists of ranges overlap exactly when they share a block. */
  lemma {:induction false} OverlapIsSharedBlock(a: seq<Range>, b: seq<Range>)
    requires forall m | 0 <= m < |a| :: a[m].0 <= a[m].1
    requires forall n | 0 <= n < |b| :: b[n].0 <= b[n].1
    ensures RangesOverlap(a, b) <==> exists v: nat :: Covered(a, v) && Covered(b, v)
  {
    if RangesOverlap(a, b) {
      var m, n :| 0 <= m < |a| && 0 <= n < |b| && a[m].0 <= b[n].1 && b[n].0 <= a[m].1;
      var v := Max(a[m].0, b[n].0);
      assert Covered(a, v) && Covered(b, v);
    }
    if v: nat :| Covered(a, v) && Covered(b, v) { SharedBlockIsOverlap(a, b, v); }
  }

  lemma {:induction false} SharedBlockIsOverlap(a: seq<Range>, b: seq<Range>, v: nat)
    ensures Covered(a, v) && Covered(b, v) ==> RangesOverlap(a, b)
  {
  }

  function Listing(s: State, f: nat): seq<nat> { if f in s.table then s.table[f] else [] }

  predicate Claims(flights: map<nat, Flight>, id: nat, ranges: seq<Range>) {
    id in flights && RangesOverlap(ranges, flights[id].ranges)
  }

  /** The first listed flight that overlaps the request. */
  function FirstOverlap(flights: map<nat, Flight>, listing: seq<nat>, ranges: seq<Range>): (r: Option<nat>)
    ensures r.Some? ==> r.value in listing && Claims(flights, r.value, ranges)
    ensures r.None? ==> forall id | id in listing :: !Claims(flights, id, ranges)
  {
    if listing == [] then None
    else if Claims(flights, listing[0], ranges) then Some(listing[0])
    else FirstOverlap(flights, listing[1..], ranges)
  }

  function Without(listing: seq<nat>, id: nat): (r: seq<nat>)
    ensures forall x :: x in r <==> x in listing && x != id
  {
    if listing == [] then []
    else if listing[0] == id then Without(listing[1..], id)
    else [listing[0]] + Without(listing[1..], id)
  }

  ghost predicate Enabled(s: State, step: Step) {
    match step
    case Acquire(l, f, missing, ranges, id) => l !in s.leases && Grouped(missing, ranges) && id !in s.flights
    case MarkDone(l) => l in s.leases && s.leases[l].phase.Owning? && s.leases[l].flight in s.flights
    case Unlist(l) => l in s.leases && s.leases[l].phase.Marked? && s.leases[l].flight in s.flights
    case Notify(l) => l in s.leases && s.leases[l].phase.Removed?
    case Wait(l) => l in s.leases && (s.leases[l].phase.Joined? || s.leases[l].phase.Woken?)
                    && s.leases[l].flight in s.flights
    case WakeUp(l) => l in s.leases && s.leases[l].phase.Sleeping?
    case Drop(l) => l in s.leases && (s.leases[l].phase.Joined? || s.leases[l].phase.Woken? || s.leases[l].phase.Awake?)
  }

  function SetPhase(leases: map<nat, Lease>, l: nat, phase: Phase): map<nat, Lease>
    requires l in leases
  {
    leases[l := leases[l].(phase := phase)]
  }

  /** The list without the flight; a list that would be empty leaves the table. */
  function Unlisted(table: map<nat, seq<nat>>, f: nat, id: nat): map<nat, seq<nat>> {
    if f !in table then table
    else if Without(table[f], id) == [] then table - {f}
    else table[f := Without(table[f], id)]
  }

  /** Everyone asleep on the flight wakes; the owner's lease is gone. */
  function Notified(leases: map<nat, Lease>, l: nat, id: nat): map<nat, Lease> {
    map m | m in leases && m != l ::
      if leases[m].flight == id && leases[m].phase.Sleeping? then leases[m].(phase := Woken) else leases[m]
  }

  function Claimed(s: State, l: nat, f: nat, missing: seq<nat>, ranges: seq<Range>, id: nat): State {
    State(s.flights[id := Flight(f, ranges)], s.done - {id}, s.table[f := Listing(s, f) + [id]],
          s.leases[l := Lease(id, Owning, f, missing)], s.owners[id := l])
  }

  ghost function Apply(s: State, step: Step): State
    requires Enabled(s, step)
  {
    match step
    case Acquire(l, f, missing, ranges, id) =>
      var hit := FirstOverlap(s.flights, Listing(s, f), ranges);
      if hit.Some? then s.(leases := s.leases[l := Lease(hit.value, Joined, f, missing)])
      else Claimed(s, l, f, missing, ranges, id)
    case MarkDone(l) => s.(done := s.done + {s.leases[l].flight}, leases := SetPhase(s.leases, l, Marked))
    case Unlist(l) =>
      var id := s.leases[l].flight;
      s.(table := Unlisted(s.table, s.flights[id].file, id), leases := SetPhase(s.leases, l, Removed))
    case Notify(l) =>
      s.(leases := Notified(s.leases, l, s.leases[l].flight), owners := s.owners - {s.leases[l].flight})
    case Wait(l) => s.(leases := SetPhase(s.leases, l, if s.leases[l].flight in s.done then Awake else Sleeping))
    case WakeUp(l) => s.(leases := SetPhase(s.leases, l, Woken))
    case Drop(l) => s.(leases := s.leases - {l})
  }

  // ---- the invariant

  ghost predicate Disjoint(flights: map<nat, Flight>, a: nat, b: nat) {
    a in flights && b in flights && !RangesOverlap(flights[a].ranges, flights[b].ranges)
  }

  /** A file's list is nonempty, names flights of that file once each, and their claims are disjoint. */
  ghost predicate ListOk(flights: map<nat, Flight>, f: nat, listing: seq<nat>) {
    && listing != []
    && (forall id | id in listing :: id in flights && flights[id].file == f)
    && (forall m, n | 0 <= m < n < |listing| :: listing[m] != listing[n] && Disjoint(flights, listing[n], listing[m]))
  }

  ghost predicate TableOk(flights: map<nat, Flight>, table: map<nat, seq<nat>>) {
    forall f | f in table :: ListOk(flights, f, table[f])
  }

  predicate Listed(flights: map<nat, Flight>, table: map<nat, seq<nat>>, id: nat) {
    id in flights && flights[id].file in table && id in table[flights[id].file]
  }

  /** Who owns a flight: the recorded owner is an owning lease of it, which has marked it when it is
      done and removed it when it is not listed; a flight without an owner is done and not listed. */
  ghost predicate FlightOk(id: nat, listed: bool, done: bool, leases: map<nat, Lease>, owners: map<nat, nat>) {
    if id in owners then
      && owners[id] in leases
      && var lease := leases[owners[id]];
      && lease.IsOwner() && lease.flight == id
      && (listed <==> !lease.phase.Removed?) && (done <==> !lease.phase.Owning?)
    else done && !listed
  }

  /** An owner's flight covers exactly the blocks it is missing, a waiter's flight some of them. */
  ghost predicate Serves(flight: Flight, lease: Lease) {
    && flight.file == lease.file
    && (lease.IsOwner() ==> forall v: nat :: Covered(flight.ranges, v) <==> v in lease.missing)
    && (!lease.IsOwner() ==> exists v: nat :: Covered(flight.ranges, v) && v in lease.missing)
  }

  ghost predicate LeaseOk(l: nat, lease: Lease, flights: map<nat, Flight>, done: set<nat>, owners: map<nat, nat>) {
    && lease.flight in flights
    && (lease.IsOwner() ==> lease.flight in owners && owners[lease.flight] == l)
    && (lease.phase.Sleeping? ==> lease.flight in owners)
    && (lease.phase.Awake? ==> lease.flight in done)
  }

  ghost predicate LeasesOk(flights: map<nat, Flight>, done: set<nat>, leases: map<nat, Lease>, owners: map<nat, nat>) {
    forall l | l in leases :: LeaseOk(l, leases[l], flights, done, owners)
  }

  ghost predicate FlightsOk(s: State) {
    forall id | id in s.flights :: FlightOk(id, Listed(s.flights, s.table, id), id in s.done, s.leases, s.owners)
  }

  /** The ranges a flight claims are not inverted. */
  ghost predicate RangesOk(flights: map<nat, Flight>) {
    forall id, n | id in flights && 0 <= n < |flights[id].ranges| ::
      flights[id].ranges[n].0 <= flights[id].ranges[n].1
  }

  ghost predicate AllServed(flights: map<nat, Flight>, leases: map<nat, Lease>) {
    forall l | l in leases :: leases[l].flight in flights && Serves(flights[leases[l].flight], leases[l])
  }

  ghost predicate Inv(s: State) {
    TableOk(s.flights, s.table) && LeasesOk(s.flights, s.done, s.leases, s.owners) && FlightsOk(s)
  }

  // ---- every step keeps it

  lemma {:induction false} Waiting(s: State, step: Step)
    requires Inv(s) && Enabled(s, step) && (step.Wait? || step.WakeUp? || step.Drop?)
    ensures Inv(Apply(s, step))
  {
    var l, t := step.l, Apply(s, step);
    assert LeaseOk(l, s.leases[l], s.flights, s.done, s.owners);
    forall id | id in t.flights ensures FlightOk(id, Listed(t.flights, t.table, id), id in t.done, t.leases, t.owners) {
      assert FlightOk(id, Listed(s.flights, s.table, id), id in s.done, s.leases, s.owners);
    }
    assert FlightOk(s.leases[l].flight, Listed(s.flights, s.table, s.leases[l].flight), s.leases[l].flight in s.done,
                    s.leases, s.owners);
  }

  lemma {:induction false} Joining(s: State, l: nat, f: nat, missing: seq<nat>, id: nat)
    requires Inv(s) && l !in s.leases && id in Listing(s, f)
    ensures Inv(s.(leases := s.leases[l := Lease(id, Joined, f, missing)]))
  {
  }

  lemma {:induction false} AppendedIsOk(flights: map<nat, Flight>, f: nat, listing: seq<nat>, id: nat,
                                        ranges: seq<Range>)
    requires listing != [] ==> ListOk(flights, f, listing)
    requires id !in flights && FirstOverlap(flights, listing, ranges).None?
    ensures ListOk(flights[id := Flight(f, ranges)], f, listing + [id])
  {
    var after, all := flights[id := Flight(f, ranges)], listing + [id];
    forall m, n | 0 <= m < n < |all| ensures all[m] != all[n] && Disjoint(after, all[n], all[m]) {
      assert all[m] == listing[m] && listing[m] in listing;
      if n < |listing| {
        assert Disjoint(flights, listing[n], listing[m]);
      } else {
        assert !Claims(flights, listing[m], ranges);
      }
    }
  }

  lemma {:induction false} ClaimingTable(s: State, l: nat, f: nat, missing: seq<nat>, ranges: seq<Range>, id: nat)
    requires TableOk(s.flights, s.table) && id !in s.flights && FirstOverlap(s.flights, Listing(s, f), ranges).None?
    ensures var t := Claimed(s, l, f, missing, ranges, id); TableOk(t.flights, t.table)
  {
    var t := Claimed(s, l, f, missing, ranges, id);
    AppendedIsOk(s.flights, f, Listing(s, f), id, ranges);
    forall g | g in t.table && g != f ensures ListOk(t.flights, g, t.table[g]) {
      OtherListOk(s.flights, g, s.table[g], id, Flight(f, ranges));
    }
  }

  lemma {:induction false} OtherListOk(flights: map<nat, Flight>, g: nat, listing: seq<nat>, id: nat, flight: Flight)
    requires ListOk(flights, g, listing) && id !in flights
    ensures ListOk(flights[id := flight], g, listing)
  {
  }

  lemma {:induction false} Claiming(s: State, l: nat, f: nat, missing: seq<nat>, ranges: seq<Range>, id: nat)
    requires Inv(s) && l !in s.leases && id !in s.flights && FirstOverlap(s.flights, Listing(s, f), ranges).None?
    ensures Inv(Claimed(s, l, f, missing, ranges, id))
  {
    var t := Claimed(s, l, f, missing, ranges, id);
    ClaimingTable(s, l, f, missing, ranges, id);
    forall i | i in t.flights ensures FlightOk(i, Listed(t.flights, t.table, i), i in t.done, t.leases, t.owners) {
      if i != id { assert FlightOk(i, Listed(s.flights, s.table, i), i in s.done, s.leases, s.owners); }
    }
    forall m | m in t.leases ensures LeaseOk(m, t.leases[m], t.flights, t.done, t.owners) {
      if m != l { assert LeaseOk(m, s.leases[m], s.flights, s.done, s.owners); }
    }
  }

  lemma {:induction false} Marking(s: State, l: nat)
    requires Inv(s) && Enabled(s, MarkDone(l))
    ensures Inv(Apply(s, MarkDone(l)))
  {
  }

  lemma {:induction false} UnlistingTable(flights: map<nat, Flight>, table: map<nat, seq<nat>>, f: nat, id: nat)
    requires TableOk(flights, table)
    ensures TableOk(flights, Unlisted(table, f, id))
  {
    var after := Unlisted(table, f, id);
    forall g | g in after ensures ListOk(flights, g, after[g]) {
      assert ListOk(flights, g, table[g]);
      if g == f { WithoutIsOk(flights, g, table[g], id); }
    }
  }

  lemma {:induction false} WithoutIsOk(flights: map<nat, Flight>, f: nat, listing: seq<nat>, id: nat)
    requires ListOk(flights, f, listing)
    ensures Without(listing, id) != [] ==> ListOk(flights, f, Without(listing, id))
  {
    if |listing| > 1 {
      WithoutIsOk(flights, f, listing[1..], id);
      var rest := Without(listing[1..], id);
      forall n | 0 <= n < |rest| ensures listing[0] != rest[n] && Disjoint(flights, rest[n], listing[0]) {
        assert rest[n] in listing[1..];
        var m :| 0 <= m < |listing| - 1 && listing[1..][m] == rest[n];
        assert listing[m + 1] == rest[n];
      }
    }
  }

  lemma {:induction false} UnlistedIsNotListed(flights: map<nat, Flight>, table: map<nat, seq<nat>>, id: nat, i: nat)
    requires id in flights
    ensures Listed(flights, Unlisted(table, flights[id].file, id), i) <==> Listed(flights, table, i) && i != id
  {
  }

  lemma {:induction false} Unlisting(s: State, l: nat)
    requires Inv(s) && Enabled(s, Unlist(l))
    ensures Inv(Apply(s, Unlist(l)))
  {
    var t, id := Apply(s, Unlist(l)), s.leases[l].flight;
    assert LeaseOk(l, s.leases[l], s.flights, s.done, s.owners);
    UnlistingTable(s.flights, s.table, s.flights[id].file, id);
    forall i | i in t.flights ensures FlightOk(i, Listed(t.flights, t.table, i), i in t.done, t.leases, t.owners) {
      UnlistedIsNotListed(s.flights, s.table, id, i);
      assert FlightOk(i, Listed(s.flights, s.table, i), i in s.done, s.leases, s.owners);
    }
    forall m | m in t.leases ensures LeaseOk(m, t.leases[m], t.flights, t.done, t.owners) {
      assert LeaseOk(m, s.leases[m], s.flights, s.done, s.owners);
    }
  }

  lemma {:induction false} Notifying(s: State, l: nat)
    requires Inv(s) && Enabled(s, Notify(l))
    ensures Inv(Apply(s, Notify(l)))
  {
    var t := Apply(s, Notify(l));
    assert LeaseOk(l, s.leases[l], s.flights, s.done, s.owners);
    forall i | i in t.flights ensures FlightOk(i, Listed(t.flights, t.table, i), i in t.done, t.leases, t.owners) {
      assert FlightOk(i, Listed(s.flights, s.table, i), i in s.done, s.leases, s.owners);
    }
    forall m | m in t.leases ensures LeaseOk(m, t.leases[m], t.flights, t.done, t.owners) {
      assert LeaseOk(m, s.leases[m], s.flights, s.done, s.owners);
    }
  }

  lemma {:induction false} StepKeepsInv(s: State, step: Step)
    requires Inv(s) && Enabled(s, step)
    ensures Inv(Apply(s, step))
  {
    match step
    case Acquire(l, f, missing, ranges, id) =>
      var hit := FirstOverlap(s.flights, Listing(s, f), ranges);
      if hit.Some? { Joining(s, l, f, missing, hit.value); } else { Claiming(s, l, f, missing, ranges, id); }
    case MarkDone(l) => Marking(s, l);
    case Unlist(l) => Unlisting(s, l);
    case Notify(l) => Notifying(s, l);
    case _ => Waiting(s, step);
  }

  /** The step leaves the leases it keeps what they are for. */
  ghost predicate SameLeases(before: map<nat, Lease>, after: map<nat, Lease>) {
    forall l | l in after :: l in before && after[l].flight == before[l].flight && after[l].file == before[l].file
                             && after[l].missing == before[l].missing && after[l].IsOwner() == before[l].IsOwner()
  }

  lemma {:induction false} ServingKept(flights: map<nat, Flight>, before: map<nat, Lease>, after: map<nat, Lease>)
    requires AllServed(flights, before) && SameLeases(before, after)
    ensures AllServed(flights, after)
  {
    forall l | l in after ensures after[l].flight in flights && Serves(flights[after[l].flight], after[l]) {
      assert Serves(flights[before[l].flight], before[l]);
    }
  }

  /** A new lease is served: by a flight that shares a block with it, or by its own. */
  lemma {:induction false} NewLeaseServed(s: State, l: nat, f: nat, missing: seq<nat>, ranges: seq<Range>, id: nat)
    requires TableOk(s.flights, s.table) && RangesOk(s.flights) && Enabled(s, Acquire(l, f, missing, ranges, id))
    ensures var t := Apply(s, Acquire(l, f, missing, ranges, id));
            RangesOk(t.flights) && t.leases[l].flight in t.flights && Serves(t.flights[t.leases[l].flight], t.leases[l])
  {
    var hit := FirstOverlap(s.flights, Listing(s, f), ranges);
    if hit.Some? {
      assert ListOk(s.flights, f, s.table[f]);
      OverlapIsSharedBlock(ranges, s.flights[hit.value].ranges);
    }
  }

  lemma {:induction false} Acquiring(s: State, l: nat, f: nat, missing: seq<nat>, ranges: seq<Range>, id: nat)
    requires Inv(s) && RangesOk(s.flights) && AllServed(s.flights, s.leases)
    requires Enabled(s, Acquire(l, f, missing, ranges, id))
    ensures var t := Apply(s, Acquire(l, f, missing, ranges, id)); RangesOk(t.flights) && AllServed(t.flights, t.leases)
  {
    var t := Apply(s, Acquire(l, f, missing, ranges, id));
    NewLeaseServed(s, l, f, missing, ranges, id);
    forall m | m in t.leases
      ensures t.leases[m].flight in t.flights && Serves(t.flights[t.leases[m].flight], t.leases[m])
    {
      if m != l { assert Serves(s.flights[s.leases[m].flight], s.leases[m]); }
    }
  }

  /** The invariant with what the flights are for. */
  ghost predicate FullInv(s: State) { Inv(s) && RangesOk(s.flights) && AllServed(s.flights, s.leases) }

  lemma {:induction false} StepKeepsFullInv(s: State, step: Step)
    requires FullInv(s) && Enabled(s, step)
    ensures FullInv(Apply(s, step))
  {
    StepKeepsInv(s, step);
    if step.Acquire? {
      Acquiring(s, step.l, step.f, step.missing, step.ranges, step.id);
    } else {
      LeasesStay(s, step);
      ServingKept(s.flights, s.leases, Apply(s, step).leases);
    }
  }

  lemma {:induction false} LeasesStay(s: State, step: Step)
    requires Enabled(s, step) && !step.Acquire?
    ensures Apply(s, step).flights == s.flights && SameLeases(s.leases, Apply(s, step).leases)
  {
  }

  ghost predicate Init(s: State) { s == State(map[], {}, map[], map[], map[]) }

  ghost predicate Next(s: State, step: Step, t: State) { Enabled(s, step) && t == Apply(s, step) }

  /** Some run of steps ends here. */
  ghost predicate Reached(s: State) { Runs.Reachable(Init, Next, s) }

  lemma {:induction false} ReachedKeepsInv(s: State)
    requires Reached(s)
    ensures FullInv(s)
  {
    forall p, step, t | FullInv(p) && Next(p, step, t) ensures FullInv(t) { StepKeepsFullInv(p, step); }
    Runs.ReachableKeeps(Init, Next, FullInv, s);
  }

  // ---- what every reachable state satisfies

  /** No block is claimed by two live flights of a file: it is never fetched twice at once. */
  lemma {:induction false} ClaimsAreDisjoint(s: State, a: nat, b: nat, v: nat)
    requires Reached(s) && a != b && Listed(s.flights, s.table, a) && Listed(s.flights, s.table, b)
    requires s.flights[a].file == s.flights[b].file
    ensures !(Covered(s.flights[a].ranges, v) && Covered(s.flights[b].ranges, v))
  {
    ReachedKeepsInv(s);
    var f := s.flights[a].file;
    var listing := s.table[f];
    assert ListOk(s.flights, f, listing);
    var m :| 0 <= m < |listing| && listing[m] == a;
    var n :| 0 <= n < |listing| && listing[n] == b;
    var first, second := if m < n then b else a, if m < n then a else b;
    assert Disjoint(s.flights, first, second);
    SharedBlockIsOverlap(s.flights[first].ranges, s.flights[second].ranges, v);
  }

  /** Some live flight of the file covers a block the reader is missing. */
  ghost predicate InFlight(s: State, f: nat, missing: seq<nat>) {
    exists id, v: nat | id in Listing(s, f) :: id in s.flights && Covered(s.flights[id].ranges, v) && v in missing
  }

  /** A reader joins exactly if some block it is missing is already being fetched, and then a flight that
      fetches one; otherwise it owns a live flight for exactly the blocks it is missing. */
  lemma {:induction false} AcquireDecides(s: State, l: nat, f: nat, missing: seq<nat>, ranges: seq<Range>, id: nat)
    requires Reached(s) && Enabled(s, Acquire(l, f, missing, ranges, id))
    ensures var t := Apply(s, Acquire(l, f, missing, ranges, id));
            && l in t.leases && t.leases[l].file == f && t.leases[l].missing == missing
            && t.leases[l].flight in t.flights && Serves(t.flights[t.leases[l].flight], t.leases[l])
            && t.leases[l].flight in Listing(t, f)
            && t.leases[l].phase == (if InFlight(s, f, missing) then Joined else Owning)
            && (forall m | m in s.leases :: m in t.leases && t.leases[m] == s.leases[m])
  {
    ReachedKeepsInv(s);
    NewLeaseServed(s, l, f, missing, ranges, id);
    OverlapIsInFlight(s, f, missing, ranges);
  }

  lemma {:induction false} OverlapIsInFlight(s: State, f: nat, missing: seq<nat>, ranges: seq<Range>)
    requires RangesOk(s.flights) && Grouped(missing, ranges)
    ensures FirstOverlap(s.flights, Listing(s, f), ranges).Some? <==> InFlight(s, f, missing)
  {
    var hit := FirstOverlap(s.flights, Listing(s, f), ranges);
    if hit.Some? {
      OverlapIsSharedBlock(ranges, s.flights[hit.value].ranges);
    } else if InFlight(s, f, missing) {
      var other, v: nat :|
        other in Listing(s, f) && other in s.flights && Covered(s.flights[other].ranges, v) && v in missing;
      SharedBlockIsOverlap(ranges, s.flights[other].ranges, v);
      assert Claims(s.flights, other, ranges);
    }
  }

  /** No block is being fetched by two readers at once. */
  lemma {:induction false} MissingBlocksAreFetchedOnce(s: State, l: nat, m: nat, v: nat)
    requires Reached(s) && l != m && l in s.leases && m in s.leases && s.leases[l].file == s.leases[m].file
    requires s.leases[l].phase.Owning? && s.leases[m].phase.Owning?
    ensures !(v in s.leases[l].missing && v in s.leases[m].missing)
  {
    ReachedKeepsInv(s);
    var a, b := s.leases[l].flight, s.leases[m].flight;
    assert LeaseOk(l, s.leases[l], s.flights, s.done, s.owners) && LeaseOk(m, s.leases[m], s.flights, s.done, s.owners);
    assert FlightOk(a, Listed(s.flights, s.table, a), a in s.done, s.leases, s.owners);
    assert FlightOk(b, Listed(s.flights, s.table, b), b in s.done, s.leases, s.owners);
    ClaimsAreDisjoint(s, a, b, v);
  }

  /** A live flight has exactly one owner, and no file keeps an empty list. */
  lemma {:induction false} LiveFlightsHaveOneOwner(s: State, id: nat)
    requires Reached(s) && Listed(s.flights, s.table, id)
    ensures exists l :: l in s.leases && s.leases[l].IsOwner() && s.leases[l].flight == id
    ensures forall l, m | l in s.leases && m in s.leases && s.leases[l].IsOwner() && s.leases[m].IsOwner()
                       && s.leases[l].flight == s.leases[m].flight == id :: l == m
    ensures forall f | f in s.table :: s.table[f] != []
  {
    ReachedKeepsInv(s);
    assert FlightOk(id, Listed(s.flights, s.table, id), id in s.done, s.leases, s.owners);
    forall f | f in s.table ensures s.table[f] != [] { assert ListOk(s.flights, f, s.table[f]); }
    forall l | l in s.leases && s.leases[l].IsOwner() && s.leases[l].flight == id ensures l == s.owners[id] {
      assert LeaseOk(l, s.leases[l], s.flights, s.done, s.owners);
    }
  }

  lemma OneBlockGroup(v: nat)
    ensures Grouped([v], [(v, v)])
  {
    forall u: nat ensures Covered([(v, v)], u) <==> u in [v] {
      if u == v { assert [(v, v)][0].0 <= u <= [(v, v)][0].1; }
    }
  }

  /** Two readers that miss the same block, whatever it is: the first fetches it and the second sleeps on
      that fetch. */
  lemma {:induction false} ReadersShareAFetch(f: nat, v: nat) returns (s: State)
    ensures Reached(s) && 1 in s.leases && 2 in s.leases && s.leases[1].flight == s.leases[2].flight
    ensures s.leases[1].phase.Owning? && s.leases[2].phase.Sleeping?
    ensures s.leases[1].missing == s.leases[2].missing == [v]
  {
    OneBlockGroup(v);
    var ranges := [(v, v)];
    s := State(map[], {}, map[], map[], map[]);
    Runs.InitIsReachable(Init, Next, s);
    var t := Claimed(s, 1, f, [v], ranges, 0);
    assert Next(s, Acquire(1, f, [v], ranges, 0), t);
    Runs.NextIsReachable(Init, Next, s, Acquire(1, f, [v], ranges, 0), t);
    SharedBlockIsOverlap(ranges, ranges, v);
    assert Claims(t.flights, 0, ranges) && FirstOverlap(t.flights, [0], ranges) == Some(0);
    var u := t.(leases := t.leases[2 := Lease(0, Joined, f, [v])]);
    assert Next(t, Acquire(2, f, [v], ranges, 1), u);
    Runs.NextIsReachable(Init, Next, t, Acquire(2, f, [v], ranges, 1), u);
    s := u.(leases := SetPhase(u.leases, 2, Sleeping));
    assert Next(u, Wait(2), s);
    Runs.NextIsReachable(Init, Next, u, Wait(2), s);
  }

  /** A sleeper that wakes for no reason goes back to sleep, and nothing has changed. */
  lemma {:induction false} SpuriousWakeIsHarmless(s: State, m: nat)
    requires Reached(s) && m in s.leases && s.leases[m].phase.Sleeping? && s.leases[m].flight !in s.done
    ensures Enabled(s, WakeUp(m)) && Apply(s, WakeUp(m)).leases[m].phase.Woken?
    ensures Enabled(Apply(s, WakeUp(m)), Wait(m)) && Apply(Apply(s, WakeUp(m)), Wait(m)) == s
  {
    ReachedKeepsInv(s);
    assert LeaseOk(m, s.leases[m], s.flights, s.done, s.owners);
    var t := Apply(s, WakeUp(m));
    assert SetPhase(t.leases, m, Sleeping) == s.leases;
  }

  /** Nobody sleeps on a flight whose owner has finished notifying: the owner is still at work, and
      its next steps, which wait for nobody, wake the sleeper for good. */
  lemma {:induction false} SleepersAreWoken(s: State, m: nat) returns (t: State)
    requires Reached(s) && m in s.leases && s.leases[m].phase.Sleeping?
    ensures exists l :: l in s.leases && s.leases[l].IsOwner() && s.leases[l].flight == s.leases[m].flight
    ensures Reached(t) && m in t.leases && t.leases[m] == s.leases[m].(phase := Woken)
    ensures Enabled(t, Wait(m)) && Apply(t, Wait(m)).leases[m].phase.Awake?
    ensures Enabled(Apply(t, Wait(m)), Drop(m)) && m !in Apply(Apply(t, Wait(m)), Drop(m)).leases
  {
    ReachedKeepsInv(s);
    var id := s.leases[m].flight;
    assert LeaseOk(m, s.leases[m], s.flights, s.done, s.owners);
    assert FlightOk(id, Listed(s.flights, s.table, id), id in s.done, s.leases, s.owners);
    var l := s.owners[id];
    t := s;
    if t.leases[l].phase.Owning? {
      Runs.NextIsReachable(Init, Next, t, MarkDone(l), Apply(t, MarkDone(l)));
      t := Apply(t, MarkDone(l));
    }
    if t.leases[l].phase.Marked? {
      Runs.NextIsReachable(Init, Next, t, Unlist(l), Apply(t, Unlist(l)));
      t := Apply(t, Unlist(l));
    }
    Runs.NextIsReachable(Init, Next, t, Notify(l), Apply(t, Notify(l)));
    t := Apply(t, Notify(l));
  }
}
