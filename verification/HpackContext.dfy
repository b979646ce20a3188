/** Compression state of one direction, and how changes of the allowed size become updates (RFC 7541 section 4.2). */
module HpackContext {
  import opened Machine
  import opened HpackFields

  /** Size updates still owed: the least limit since the last update, then the current one if it is greater. */
  datatype Pending = Pending(minimum: Option<nat>, finalSize: Option<nat>) {
    function Next(): Option<nat> {
      match minimum
      case Some(m) => Some(m)
      case None => finalSize
    }

    function Advance(): Pending {
      if minimum.Some? then Pending(None, finalSize) else Pending(None, None)
    }

    function RecordChange(allowed: nat): Pending {
      match minimum
      case None => Pending(Some(allowed), None)
      case Some(m) => if allowed <= m then Pending(Some(allowed), None) else Pending(Some(m), Some(allowed))
    }
  }

  const NOTHING_PENDING := Pending(None, None)

  /** A dynamic table's contents and limit, the allowed limit, and the updates owed. */
  datatype Session = Session(fields: seq<Field>, maximum: nat, allowed: nat, pending: Pending) {
    ghost predicate Valid(capacity: nat) {
      && TotalSize(fields) <= maximum <= capacity
      && allowed <= capacity
      && match pending
         case Pending(None, None) => maximum <= allowed
         case Pending(None, Some(f)) => maximum < f == allowed
         case Pending(Some(m), None) => m == allowed
         case Pending(Some(m), Some(f)) => m < f == allowed
    }

    /** A table of this maximum, ready to be used under this limit. */
    static function Start(fields: seq<Field>, maximum: nat, allowed: nat): Session {
      Session(fields, maximum, allowed, if maximum > allowed then Pending(Some(allowed), None) else NOTHING_PENDING)
    }

    function Change(limit: nat): Session {
      if limit == allowed then this else this.(allowed := limit, pending := pending.RecordChange(limit))
    }

    /** Emitting or receiving one size update. */
    function Update(limit: nat): Session {
      Session(Evict(fields, limit), limit, allowed, pending.Advance())
    }

    function Add(f: Field): Session {
      this.(fields := Insert(fields, maximum, f))
    }
  }

  // ---- The updates that are owed always suffice ----

  /** What is left of `s` once every update it owes has been made: at most two. */
  function Drained(s: Session): Session
    decreases (if s.pending.minimum.Some? then 1 else 0) + (if s.pending.finalSize.Some? then 1 else 0)
  {
    match s.pending.Next()
    case None => s
    case Some(limit) => Drained(s.Update(limit))
  }

  lemma DrainedWithinTwo(s: Session)
    ensures s.pending.Advance().Advance() == NOTHING_PENDING
    ensures Drained(s).pending == NOTHING_PENDING && Drained(s).allowed == s.allowed
  {
    var t := if s.pending.Next().Some? then s.Update(s.pending.Next().value) else s;
    var u := if t.pending.Next().Some? then t.Update(t.pending.Next().value) else t;
    assert Drained(s) == Drained(t) == Drained(u) == u;
  }

  /** The uncoalesced machine: every change of the limit is made at once. */
  datatype Table = Table(fields: seq<Field>, maximum: nat, allowed: nat) {
    function Change(limit: nat): Table {
      if limit == allowed then this else Table(Evict(fields, limit), limit, limit)
    }
  }

  /** What may happen to a direction. An update or an insertion of its own needs nothing to be owed. */
  datatype Event = LimitChanged(limit: nat) | NextUpdate | OwnUpdate(limit: nat) | FieldAdded(f: Field)

  function AfterEvent(s: Session, e: Event): Session {
    match e
    case LimitChanged(limit) => s.Change(limit)
    case NextUpdate => if s.pending.Next().Some? then s.Update(s.pending.Next().value) else s
    case OwnUpdate(limit) => if s.pending.Next().None? && limit <= s.allowed then s.Update(limit) else s
    case FieldAdded(f) => if s.pending.Next().None? then s.Add(f) else s
  }

  /** The same event on the uncoalesced machine, where updates owed have already happened. */
  function AtOnce(s: Session, t: Table, e: Event): Table {
    match e
    case LimitChanged(limit) => t.Change(limit)
    case NextUpdate => t
    case OwnUpdate(limit) =>
      if s.pending.Next().None? && limit <= s.allowed then t.(fields := Evict(t.fields, limit), maximum := limit) else t
    case FieldAdded(f) =>
      if s.pending.Next().None? then t.(fields := Insert(t.fields, t.maximum, f)) else t
  }

  function AfterEvents(s: Session, events: seq<Event>): Session
    decreases |events|
  {
    if events == [] then s else AfterEvents(AfterEvent(s, events[0]), events[1..])
  }

  function AllAtOnce(s: Session, t: Table, events: seq<Event>): Table
    decreases |events|
  {
    if events == [] then t else AllAtOnce(AfterEvent(s, events[0]), AtOnce(s, t, events[0]), events[1..])
  }

  /** Draining is two updates of those owed. */
  lemma TwoUpdatesDrain(s: Session)
    ensures AfterEvents(s, [NextUpdate, NextUpdate]) == Drained(s)
  {
    var t := AfterEvent(s, NextUpdate);
    var u := AfterEvent(t, NextUpdate);
    assert Drained(s) == Drained(t) == Drained(u) == u;
    assert [NextUpdate, NextUpdate][1..] == [NextUpdate] && [NextUpdate][1..] == [];
    assert AfterEvents(t, [NextUpdate]) == AfterEvents(u, []) == u;
  }

  /** Draining leaves exactly this table. */
  ghost predicate DrainsTo(s: Session, t: Table) {
    Drained(s) == Session(t.fields, t.maximum, t.allowed, NOTHING_PENDING)
  }

  function DrainedFields(s: Session): seq<Field> {
    match s.pending
    case Pending(None, None) => s.fields
    case Pending(None, Some(f)) => Evict(s.fields, f)
    case Pending(Some(m), None) => Evict(s.fields, m)
    case Pending(Some(m), Some(f)) => Evict(s.fields, Min(m, f))
  }

  lemma DrainedIs(s: Session)
    ensures Drained(s).fields == DrainedFields(s)
    ensures s.pending != NOTHING_PENDING ==>
              Drained(s).maximum
              == if s.pending.finalSize.Some? then s.pending.finalSize.value else s.pending.minimum.value
    ensures s.pending == NOTHING_PENDING ==> Drained(s) == s
  {
    match s.pending
    case Pending(None, None) =>
    case Pending(None, Some(f)) =>
      assert Drained(s) == Drained(s.Update(f));
    case Pending(Some(m), None) =>
      assert Drained(s) == Drained(s.Update(m));
    case Pending(Some(m), Some(f)) =>
      assert Drained(s) == Drained(s.Update(m)) == Drained(s.Update(m).Update(f));
      EvictTwice(s.fields, m, f);
  }

  lemma ChangeCoalesces(s: Session, t: Table, limit: nat, capacity: nat)
    requires s.Valid(capacity) && DrainsTo(s, t)
    ensures DrainsTo(s.Change(limit), t.Change(limit))
  {
    DrainedWithinTwo(s);
    DrainedWithinTwo(s.Change(limit));
    DrainedIs(s);
    DrainedIs(s.Change(limit));
    EvictTwice(s.fields, DrainedLimit(s), limit);
    EvictAll(s.fields, limit);
    EvictAll(s.fields, DrainedLimit(s));
  }

  /** The limit that draining evicts to. */
  function DrainedLimit(s: Session): nat {
    match s.pending
    case Pending(None, None) => s.maximum
    case Pending(None, Some(f)) => f
    case Pending(Some(m), None) => m
    case Pending(Some(m), Some(f)) => Min(m, f)
  }

  lemma EvictAll(fields: seq<Field>, limit: nat)
    ensures TotalSize(fields) <= limit ==> Evict(fields, limit) == fields
  {
  }

  lemma EventKeepsValid(s: Session, e: Event, capacity: nat)
    requires s.Valid(capacity) && (e.LimitChanged? ==> e.limit <= capacity)
    ensures AfterEvent(s, e).Valid(capacity)
  {
  }

  lemma EventCoalesces(s: Session, t: Table, e: Event, capacity: nat)
    requires s.Valid(capacity) && DrainsTo(s, t) && (e.LimitChanged? ==> e.limit <= capacity)
    ensures DrainsTo(AfterEvent(s, e), AtOnce(s, t, e))
  {
    match e
    case LimitChanged(limit) => ChangeCoalesces(s, t, limit, capacity);
    case NextUpdate =>
    case OwnUpdate(limit) =>
      if s.pending.Next().None? { DrainedIs(s); }
    case FieldAdded(f) =>
      if s.pending.Next().None? { DrainedIs(s); }
  }

  /**
   * Coalescing preserves meaning: whatever the run, and wherever it was interrupted, making the
   * at most two updates owed leaves the table that making every change at once would have left.
   */
  lemma {:induction false} Coalesces(s: Session, t: Table, events: seq<Event>, capacity: nat)
    requires s.Valid(capacity) && DrainsTo(s, t)
    requires forall e :: e in events && e.LimitChanged? ==> e.limit <= capacity
    ensures AfterEvents(s, events).Valid(capacity)
    ensures DrainsTo(AfterEvents(s, events), AllAtOnce(s, t, events))
    decreases |events|
  {
    if events != [] {
      EventKeepsValid(s, events[0], capacity);
      EventCoalesces(s, t, events[0], capacity);
      Coalesces(AfterEvent(s, events[0]), AtOnce(s, t, events[0]), events[1..], capacity);
    }
  }

  /** A new context owes what brings its table under the limit, whatever the table already holds. */
  lemma StartCoalesces(fields: seq<Field>, maximum: nat, allowed: nat, capacity: nat)
    requires TotalSize(fields) <= maximum <= capacity && allowed <= capacity
    ensures Session.Start(fields, maximum, allowed).Valid(capacity)
    ensures var limit := Min(maximum, allowed);
            DrainsTo(Session.Start(fields, maximum, allowed), Table(Evict(fields, limit), limit, allowed))
  {
    DrainedIs(Session.Start(fields, maximum, allowed));
    DrainedWithinTwo(Session.Start(fields, maximum, allowed));
    EvictAll(fields, maximum);
  }

  // ---- The mutable form ----

  class PendingSizes {
    var minimum: Option<nat>
    var finalSize: Option<nat>

    function Owed(): Pending
      reads this
    {
      Pending(minimum, finalSize)
    }

    constructor ()
      ensures Owed() == NOTHING_PENDING
    {
      minimum := None;
      finalSize := None;
    }

    function Next(): (r: Option<nat>)
      reads this
      ensures r == Owed().Next()
    {
      match minimum
      case Some(m) => Some(m)
      case None => finalSize
    }

    method Advance()
      modifies this
      ensures Owed() == old(Owed()).Advance()
    {
      if minimum.Some? {
        minimum := None;
      } else {
        finalSize := None;
      }
    }

    method QueueInitial(tableMaximum: nat, allowed: nat)
      requires Owed() == NOTHING_PENDING
      modifies this
      ensures Owed() == Session.Start([], tableMaximum, allowed).pending
    {
      if tableMaximum > allowed {
        minimum := Some(allowed);
      }
    }

    method RecordChange(allowed: nat)
      modifies this
      ensures Owed() == old(Owed()).RecordChange(allowed)
    {
      match minimum {
        case None =>
          minimum := Some(allowed);
          finalSize := None;
        case Some(m) =>
          if allowed <= m {
            minimum := Some(allowed);
            finalSize := None;
          } else {
            minimum := Some(m);
            finalSize := Some(allowed);
          }
      }
    }
  }
}
