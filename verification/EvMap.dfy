/**
 Events on file descriptors (evmap.c): counters per fd, the list of pending
 changes, and the two epoll backends that use them.
*/
module EvMap {
  import opened Epoll

  const MAX_EVENTS := 0xffff

  datatype Event = Event(id: nat, fd: int, evRead: bool, evWrite: bool)

  /** struct evmap_io, with the changelist's fdinfo behind it; NoSlot is a null pointer. */
  datatype Slot = NoSlot | Slot(nread: nat, nwrite: nat, events: seq<Event>, idxplus1: nat)

  function Readers(events: seq<Event>): nat
  {
    if events == [] then 0 else (if events[0].evRead then 1 else 0) + Readers(events[1..])
  }

  function Writers(events: seq<Event>): nat
  {
    if events == [] then 0 else (if events[0].evWrite then 1 else 0) + Writers(events[1..])
  }

  /** What the events of an fd want to hear of. */
  function WantOf(events: seq<Event>): Mask
  {
    Mask(Readers(events) > 0, Writers(events) > 0)
  }

  /** The list without the first occurrence of `ev`. */
  function Without(events: seq<Event>, ev: Event): (r: seq<Event>)
  {
    if events == [] then [] else if events[0] == ev then events[1..] else [events[0]] + Without(events[1..], ev)
  }

  lemma {:induction false} CountsAdd(events: seq<Event>, ev: Event)
    ensures Readers(events + [ev]) == Readers(events) + (if ev.evRead then 1 else 0)
    ensures Writers(events + [ev]) == Writers(events) + (if ev.evWrite then 1 else 0)
  {
    if events == [] {
      assert [ev][1..] == [] && [] + [ev] == [ev];
    } else {
      assert (events + [ev])[1..] == events[1..] + [ev];
      CountsAdd(events[1..], ev);
    }
  }

  lemma {:induction false} CountsDel(events: seq<Event>, ev: Event)
    requires ev in events
    ensures Readers(Without(events, ev)) == Readers(events) - (if ev.evRead then 1 else 0)
    ensures Writers(Without(events, ev)) == Writers(events) - (if ev.evWrite then 1 else 0)
    ensures forall e | e in Without(events, ev) :: e in events
  {
    if events[0] != ev {
      CountsDel(events[1..], ev);
      assert ([events[0]] + Without(events[1..], ev))[1..] == Without(events[1..], ev);
    }
  }

  // ---------- the state as values ----------

  /** The slot of an fd; an fd that has none yet counts as having no events. */
  function SlotAt(es: seq<Slot>, fd: int): Slot
  {
    if 0 <= fd < |es| then es[fd] else NoSlot
  }

  /** The events of an fd, in the order in which they were added. */
  function EventsAt(es: seq<Slot>, fd: int): seq<Event>
  {
    if SlotAt(es, fd).Slot? then SlotAt(es, fd).events else []
  }

  /** The fd's place in the list of changes, plus one. */
  function IndexAt(es: seq<Slot>, fd: int): nat
  {
    if SlotAt(es, fd).Slot? then SlotAt(es, fd).idxplus1 else 0
  }

  /** evmap_check_integrity, and the counters are the numbers of events. */
  predicate SlotOk(s: Slot, fd: int)
  {
    s.Slot? ==>
      && s.nread == Readers(s.events) <= MAX_EVENTS && s.nwrite == Writers(s.events) <= MAX_EVENTS
      && forall e | e in s.events :: e.fd == fd
  }

  ghost predicate SlotsOk(es: seq<Slot>)
  {
    forall fd | 0 <= fd < |es| :: SlotOk(es[fd], fd)
  }

  /** Change `i` belongs to an fd that knows it. */
  predicate ChangeKnown(es: seq<Slot>, cs: seq<Change>, i: nat)
    requires i < |cs|
  {
    IndexAt(es, cs[i].fd) == i + 1
  }

  /** The index that an fd keeps leads to its change. */
  predicate IndexRight(es: seq<Slot>, cs: seq<Change>, fd: int)
  {
    var i := IndexAt(es, fd);
    i > 0 ==> i <= |cs| && cs[i - 1].fd == fd
  }

  /** event_changelist_check: changes and the fds that have one match one to one. */
  ghost predicate IndexOk(es: seq<Slot>, cs: seq<Change>)
  {
    && (forall i | 0 <= i < |cs| :: ChangeKnown(es, cs, i))
    && (forall fd :: IndexRight(es, cs, fd))
  }

  /** A pending change asks for what the events of its fd want. */
  predicate ChangeOk(es: seq<Slot>, cs: seq<Change>, i: nat)
    requires i < |cs|
  {
    cs[i].Wanted() == WantOf(EventsAt(es, cs[i].fd))
  }

  ghost predicate ChangesOk(es: seq<Slot>, cs: seq<Change>)
  {
    forall i | 0 <= i < |cs| :: ChangeOk(es, cs, i)
  }

  /** What the kernel is to watch for now: what was wanted before the pending change, if there is one. */
  ghost function Expected(es: seq<Slot>, cs: seq<Change>, fd: int): Mask
    requires IndexOk(es, cs)
  {
    assert IndexRight(es, cs, fd);
    if IndexAt(es, fd) > 0 then cs[IndexAt(es, fd) - 1].oldEvents else WantOf(EventsAt(es, fd))
  }

  /** Slots that look the same from outside. */
  lemma {:induction false} SameView(es: seq<Slot>, es': seq<Slot>, cs: seq<Change>)
    requires IndexOk(es, cs) && ChangesOk(es, cs)
    requires forall f :: EventsAt(es', f) == EventsAt(es, f) && IndexAt(es', f) == IndexAt(es, f)
    ensures IndexOk(es', cs) && ChangesOk(es', cs)
    ensures forall f :: Expected(es', cs, f) == Expected(es, cs, f)
  {
    assert forall i: nat | i < |cs| :: ChangeKnown(es, cs, i) && ChangeKnown(es', cs, i);
    assert forall i: nat | i < |cs| :: ChangeOk(es, cs, i) && ChangeOk(es', cs, i);
    forall f
      ensures IndexRight(es', cs, f)
    {
      assert IndexRight(es, cs, f);
    }
  }

  /** A slot replaced by one with the same index. */
  lemma {:induction false} SlotSet(es: seq<Slot>, cs: seq<Change>, fd: nat, s: Slot)
    requires fd < |es| && SlotsOk(es) && IndexOk(es, cs) && SlotOk(s, fd) && s.Slot? && s.idxplus1 == IndexAt(es, fd)
    ensures SlotsOk(es[fd := s]) && IndexOk(es[fd := s], cs)
    ensures forall f | f != fd :: EventsAt(es[fd := s], f) == EventsAt(es, f)
    ensures forall f :: IndexAt(es[fd := s], f) == IndexAt(es, f)
    ensures EventsAt(es[fd := s], fd) == s.events
  {
    var es' := es[fd := s];
    assert forall f | f != fd :: SlotAt(es', f) == SlotAt(es, f);
    assert forall f :: IndexAt(es', f) == IndexAt(es, f);
    assert forall i | 0 <= i < |cs| :: ChangeKnown(es, cs, i) == ChangeKnown(es', cs, i);
    assert forall f :: IndexRight(es, cs, f) == IndexRight(es', cs, f);
  }

  /** Room for more slots, one of them constructed. */
  lemma {:induction false} MoreSlots(es: seq<Slot>, n: nat, fd: nat, cs: seq<Change>)
    requires SlotsOk(es) && IndexOk(es, cs) && ChangesOk(es, cs) && fd < |es| + n
    ensures var wide := es + seq(n, _ => NoSlot);
            var es' := if wide[fd].NoSlot? then wide[fd := Slot(0, 0, [], 0)] else wide;
            && SlotsOk(es') && IndexOk(es', cs) && ChangesOk(es', cs)
            && (forall f :: EventsAt(es', f) == EventsAt(es, f) && IndexAt(es', f) == IndexAt(es, f))
            && (forall f :: Expected(es', cs, f) == Expected(es, cs, f))
  {
    hide IndexOk, ChangesOk, Expected;
    var wide := es + seq(n, _ => NoSlot);
    var es' := if wide[fd].NoSlot? then wide[fd := Slot(0, 0, [], 0)] else wide;
    assert forall f :: SlotAt(wide, f) == SlotAt(es, f);
    assert forall f | f != fd :: SlotAt(es', f) == SlotAt(wide, f);
    assert forall f :: EventsAt(es', f) == EventsAt(es, f) && IndexAt(es', f) == IndexAt(es, f);
    SameView(es, es', cs);
  }

  /** The fields of an event_base that evmap.c and the changelist use. */
  class EventBase {
    const kernel: Kernel
    const direct: bool      // the backend without a changelist
    var entries: seq<Slot>
    var changes: seq<Change>
    var changesSize: nat

    constructor (kernel: Kernel, direct: bool)
      ensures this.kernel == kernel && this.direct == direct && Valid()
      ensures entries == [] && changes == []
    {
      this.kernel, this.direct := kernel, direct;
      entries, changes, changesSize := [], [], 0;
    }

    ghost predicate Valid()
      reads this
    {
      && SlotsOk(entries) && IndexOk(entries, changes) && ChangesOk(entries, changes)
      && |changes| <= changesSize && (direct ==> changes == [])
    }

    ghost function Events(fd: int): seq<Event>
      reads this`entries
    {
      EventsAt(entries, fd)
    }

    ghost function Want(fd: int): Mask
      reads this`entries
    {
      WantOf(Events(fd))
    }

    /** Nothing came between the program and the kernel for this fd. */
    ghost predicate InSync(fd: int)
      requires Valid()
      reads this, kernel
    {
      MaskOf(kernel.table, fd) == Expected(entries, changes, fd)
    }

    /** The next dispatch makes a call for this fd. */
    ghost predicate Issued(fd: int)
      requires Valid()
      reads this
    {
      assert IndexRight(entries, changes, fd);
      IndexAt(entries, fd) > 0 && !changes[IndexAt(entries, fd) - 1].IsNoop()
    }

    /** evmap_make_space, and the slot of `fd` constructed */
    method MakeSpace(fd: nat)
      requires Valid()
      modifies this`entries
      ensures Valid() && fd < |entries| && entries[fd].Slot?
      ensures forall f :: EventsAt(entries, f) == EventsAt(old(entries), f) && IndexAt(entries, f) == IndexAt(old(entries), f)
      ensures forall f :: Expected(entries, changes, f) == Expected(old(entries), changes, f)
    {
      hide SlotsOk, IndexOk, ChangesOk, Expected;
      var n := |entries|;
      if |entries| <= fd {
        n := if |entries| != 0 then |entries| else 32;
        while n <= fd
          invariant n > 0 && n >= |entries|
          decreases fd - n
        {
          n := n * 2;
        }
      }
      MoreSlots(entries, n - |entries|, fd, changes);
      entries := entries + seq(n - |entries|, _ => NoSlot);
      if entries[fd].NoSlot? {
        entries := entries[fd := Slot(0, 0, [], 0)];
      }
    }

    /** event_changelist_get_or_construct: where the fd's change is. */
    method GetOrConstruct(fd: nat, oldEvents: Mask) returns (i: nat)
      requires Valid() && !direct && fd < |entries| && entries[fd].Slot? && oldEvents == Want(fd)
      modifies this`entries, this`changes, this`changesSize
      ensures Valid() && i < |changes| && changes[i].fd == fd && IndexAt(entries, fd) == i + 1
      ensures |entries| == |old(entries)| && entries[fd].Slot?
      ensures entries[fd] == old(entries[fd]).(idxplus1 := i + 1)
      ensures forall f :: EventsAt(entries, f) == EventsAt(old(entries), f)
      ensures forall f :: Expected(entries, changes, f) == Expected(old(entries), old(changes), f)
    {
      hide SlotsOk, IndexOk, ChangesOk, Expected, EventsAt;
      Lookup(entries, changes, fd);
      if entries[fd].idxplus1 == 0 {
        if |changes| == changesSize {
          changesSize := if changesSize < 64 then 64 else changesSize * 2; // event_changelist_grow
        }
        i := |changes|;
        NewChange(entries, changes, fd);
        changes := changes + [Change(fd, oldEvents, Keep, Keep)];
        entries := entries[fd := entries[fd].(idxplus1 := i + 1)];
      } else {
        i := entries[fd].idxplus1 - 1;
      }
    }

    /** event_changelist_add: an add replaces a delete. */
    method ChangelistAdd(fd: nat, oldEvents: Mask, m: Mask) returns (r: int)
      requires Valid() && !direct && fd < |entries| && entries[fd].Slot? && oldEvents == Want(fd)
      modifies this`entries, this`changes, this`changesSize
      ensures r == 0 && |changes| <= changesSize
      ensures Requested(old(entries), old(changes), entries, changes, fd, Mask(oldEvents.r || m.r, oldEvents.w || m.w))
    {
      hide SlotsOk, IndexOk, ChangesOk, Expected, EventsAt, Requested;
      ghost var es0, cs0 := entries, changes;
      var i := GetOrConstruct(fd, oldEvents);
      ghost var es, cs := entries, changes;
      Asked(es, cs, i);
      if m.r {
        changes := changes[i := changes[i].(readChange := Add)];
      }
      if m.w {
        changes := changes[i := changes[i].(writeChange := Add)];
      }
      assert changes == cs[i := changes[i]];
      ChangeSet(es0, cs0, es, cs, i, changes[i]);
      return 0;
    }

    /** event_changelist_del: a delete removes a pending add. */
    method ChangelistDel(fd: nat, oldEvents: Mask, m: Mask) returns (r: int)
      requires Valid() && !direct && fd < |entries| && entries[fd].Slot? && oldEvents == Want(fd)
      modifies this`entries, this`changes, this`changesSize
      ensures r == 0 && |changes| <= changesSize
      ensures Requested(old(entries), old(changes), entries, changes, fd, Mask(oldEvents.r && !m.r, oldEvents.w && !m.w))
    {
      hide SlotsOk, IndexOk, ChangesOk, Expected, EventsAt, Requested;
      ghost var es0, cs0 := entries, changes;
      var i := GetOrConstruct(fd, oldEvents);
      ghost var es, cs := entries, changes;
      Asked(es, cs, i);
      if m.r {
        if !changes[i].oldEvents.r && changes[i].readChange.Add? {
          changes := changes[i := changes[i].(readChange := Keep)];
        } else {
          changes := changes[i := changes[i].(readChange := Del)];
        }
      }
      if m.w {
        if !changes[i].oldEvents.w && changes[i].writeChange.Add? {
          changes := changes[i := changes[i].(writeChange := Keep)];
        } else {
          changes := changes[i := changes[i].(writeChange := Del)];
        }
      }
      assert changes == cs[i := changes[i]];
      ChangeSet(es0, cs0, es, cs, i, changes[i]);
      return 0;
    }

    /** epoll_nochangelist_add: one call of epoll_apply_one_change. */
    method DirectAdd(fd: nat, oldEvents: Mask, m: Mask) returns (r: int)
      requires m != NONE
      modifies kernel`table
      ensures OnlyChanges(old(kernel.table), kernel.table, fd)
      ensures fd in kernel.open ==> r == 0 && MaskOf(kernel.table, fd) == Mask(oldEvents.r || m.r, oldEvents.w || m.w)
      ensures fd !in kernel.open ==> r == -1 && kernel.table == old(kernel.table)
    {
      var ch := Change(fd, oldEvents, if m.r then Add else Keep, if m.w then Add else Keep);
      r := ApplyOneChange(kernel, ch);
    }

    /** epoll_nochangelist_del */
    method DirectDel(fd: nat, oldEvents: Mask, m: Mask) returns (r: int)
      requires m != NONE
      modifies kernel`table
      ensures OnlyChanges(old(kernel.table), kernel.table, fd)
      ensures fd in kernel.open ==> r == 0 && MaskOf(kernel.table, fd) == Mask(oldEvents.r && !m.r, oldEvents.w && !m.w)
      ensures fd !in kernel.open ==>
        kernel.table == old(kernel.table) && r == if Mask(oldEvents.r && !m.r, oldEvents.w && !m.w) == NONE then 0 else -1
    {
      var ch := Change(fd, oldEvents, if m.r then Del else Keep, if m.w then Del else Keep);
      r := ApplyOneChange(kernel, ch);
    }

    /** The backend's `add`. */
    method BackendAdd(fd: nat, oldEvents: Mask, m: Mask) returns (r: int)
      requires Valid() && fd < |entries| && entries[fd].Slot? && oldEvents == Want(fd) && m != NONE
      modifies this`entries, this`changes, this`changesSize, kernel`table
      ensures |changes| <= changesSize
      ensures OnlyChanges(old(kernel.table), kernel.table, fd)
      ensures direct ==> entries == old(entries) && changes == old(changes)
      ensures direct && fd in kernel.open ==>
        r == 0 && MaskOf(kernel.table, fd) == Mask(oldEvents.r || m.r, oldEvents.w || m.w)
      ensures direct && fd !in kernel.open ==> r == -1 && kernel.table == old(kernel.table)
      ensures !direct ==> r == 0 && kernel.table == old(kernel.table)
      ensures !direct ==>
        Requested(old(entries), old(changes), entries, changes, fd, Mask(oldEvents.r || m.r, oldEvents.w || m.w))
    {
      hide Requested, SlotsOk, IndexOk, ChangesOk;
      if direct {
        r := DirectAdd(fd, oldEvents, m);
      } else {
        r := ChangelistAdd(fd, oldEvents, m);
      }
    }

    /** The backend's `del`. */
    method BackendDel(fd: nat, oldEvents: Mask, m: Mask) returns (r: int)
      requires Valid() && fd < |entries| && entries[fd].Slot? && oldEvents == Want(fd) && m != NONE
      modifies this`entries, this`changes, this`changesSize, kernel`table
      ensures |changes| <= changesSize
      ensures OnlyChanges(old(kernel.table), kernel.table, fd)
      ensures direct ==> entries == old(entries) && changes == old(changes)
      ensures direct && fd in kernel.open ==>
        r == 0 && MaskOf(kernel.table, fd) == Mask(oldEvents.r && !m.r, oldEvents.w && !m.w)
      ensures direct && fd !in kernel.open ==>
        kernel.table == old(kernel.table) && r == if Mask(oldEvents.r && !m.r, oldEvents.w && !m.w) == NONE then 0 else -1
      ensures !direct ==> r == 0 && kernel.table == old(kernel.table)
      ensures !direct ==>
        Requested(old(entries), old(changes), entries, changes, fd, Mask(oldEvents.r && !m.r, oldEvents.w && !m.w))
    {
      hide Requested, SlotsOk, IndexOk, ChangesOk;
      if direct {
        r := DirectDel(fd, oldEvents, m);
      } else {
        r := ChangelistDel(fd, oldEvents, m);
      }
    }

    /** The end of evmap_io_add and evmap_io_del: the slot's counters and events, once the backend knows. */
    method Fill(fd: nat, nread: nat, nwrite: nat, events: seq<Event>, ghost es0: seq<Slot>, ghost cs0: seq<Change>,
        ghost told: bool)
      requires fd < |entries| && entries[fd].Slot? && SlotOk(Slot(nread, nwrite, events, entries[fd].idxplus1), fd)
      requires |changes| <= changesSize && (direct ==> changes == [])
      requires if told then Requested(es0, cs0, entries, changes, fd, WantOf(events))
               else SlotsOk(entries) && IndexOk(entries, changes) && ChangesOk(entries, changes) && es0 == entries && cs0 == changes
                    && (IndexAt(entries, fd) > 0 ==> WantOf(events) == WantOf(EventsAt(entries, fd)))
      modifies this`entries
      ensures Valid() && IndexOk(es0, cs0)
      ensures Events(fd) == events && forall f | f != fd :: Events(f) == EventsAt(es0, f)
      ensures forall f | f != fd || IndexAt(old(entries), fd) > 0 :: Expected(entries, changes, f) == Expected(es0, cs0, f)
      ensures IndexAt(entries, fd) == IndexAt(old(entries), fd)
    {
      hide Requested, SlotsOk, IndexOk, ChangesOk, Expected;
      var s := Slot(nread, nwrite, events, entries[fd].idxplus1);
      SlotFilled(es0, cs0, entries, changes, fd, s, told);
      entries := entries[fd := s];
    }

    /**
     evmap_io_add: 1 if the backend was told, 0 if it need not be, -1 if there are too many events
     or the backend failed.
    */
    method IoAdd(ev: Event) returns (r: int)
      requires Valid()
      modifies this`entries, this`changes, this`changesSize, kernel`table
      ensures Valid()
      ensures r == if ev.fd < 0 then 0 else if TooMany(old(Events(ev.fd)), ev) then -1
                   else if Turned(old(Events(ev.fd)), ev) == NONE then 0 else if direct && ev.fd !in kernel.open then -1 else 1
      ensures forall f | f != ev.fd :: Events(f) == old(Events(f))
      ensures Events(ev.fd) == if ev.fd < 0 || r < 0 then old(Events(ev.fd)) else old(Events(ev.fd)) + [ev]
      ensures forall f | old(InSync(f)) :: InSync(f)
      ensures direct && r == 1 ==> InSync(ev.fd)
    {
      hide SlotsOk, IndexOk, ChangesOk, Requested, Expected;
      if ev.fd < 0 {
        return 0;
      }
      var fd := ev.fd;
      ghost var k0 := kernel.table;
      SlotRight(entries, fd);
      MakeSpace(fd);
      SlotRight(entries, fd);
      var ctx := entries[fd];
      ghost var es0, cs0 := entries, changes;
      CountsAdd(ctx.events, ev);
      var nread, nwrite, oldEvents, res := ctx.nread, ctx.nwrite, Mask(ctx.nread > 0, ctx.nwrite > 0), NONE;
      if ev.evRead {
        nread := nread + 1;
        if nread == 1 {
          res := res.(r := true);
        }
      }
      if ev.evWrite {
        nwrite := nwrite + 1;
        if nwrite == 1 {
          res := res.(w := true);
        }
      }
      if nread > MAX_EVENTS || nwrite > MAX_EVENTS {
        return -1;
      }
      r := 0;
      if res != NONE {
        r := BackendAdd(fd, oldEvents, res);
        if r == -1 {
          return -1;
        }
        r := 1;
        Told(es0, cs0, entries, changes, fd, WantOf(ctx.events + [ev]), direct);
      } else {
        Lookup(entries, changes, fd);
      }
      DirectIndex(entries, changes, fd);
      Fill(fd, nread, nwrite, ctx.events + [ev], es0, cs0, res != NONE && !direct);
      DirectIndex(entries, changes, fd);
      assert WantOf(ctx.events + [ev]) == Mask(oldEvents.r || res.r, oldEvents.w || res.w);
      assert !direct || res == NONE ==> kernel.table == k0;
      forall f | f != fd
        ensures Expected(entries, changes, f) == Expected(es0, cs0, f) && MaskOf(kernel.table, f) == MaskOf(k0, f)
      {
      }
    }

    /** evmap_io_del of an event that was added: 1 if the backend was told, 0 if it need not be, -1 if it failed. */
    method IoDel(ev: Event) returns (r: int)
      requires Valid() && (0 <= ev.fd < |entries| ==> ev in Events(ev.fd))
      modifies this`entries, this`changes, this`changesSize, kernel`table
      ensures Valid()
      ensures r == if ev.fd < 0 then 0 else if ev.fd >= |old(entries)| then -1
                   else if TurnedOff(old(Events(ev.fd)), ev) == NONE then 0
                   else if direct && ev.fd !in kernel.open && WantOf(Without(old(Events(ev.fd)), ev)) != NONE then -1 else 1
      ensures forall f | f != ev.fd :: Events(f) == old(Events(f))
      ensures Events(ev.fd) == if ev.fd < 0 || r < 0 then old(Events(ev.fd)) else Without(old(Events(ev.fd)), ev)
      ensures forall f | old(InSync(f)) && (direct && f == ev.fd ==> f in kernel.open) :: InSync(f)
      ensures direct && r == 1 && ev.fd in kernel.open ==> InSync(ev.fd)
    {
      hide SlotsOk, IndexOk, ChangesOk, Requested, Expected;
      if ev.fd < 0 {
        return 0;
      }
      var fd := ev.fd;
      if fd >= |entries| {
        return -1;
      }
      ghost var k0, es0, cs0 := kernel.table, entries, changes;
      SlotRight(entries, fd);
      var ctx := entries[fd];
      var left := Without(ctx.events, ev);
      CountsDel(ctx.events, ev);
      CountIn(ctx.events, ev);
      var nread: nat, nwrite: nat := ctx.nread, ctx.nwrite;
      var oldEvents, res := Mask(ctx.nread > 0, ctx.nwrite > 0), NONE;
      if ev.evRead {
        nread := nread - 1;
        if nread == 0 {
          res := res.(r := true);
        }
      }
      if ev.evWrite {
        nwrite := nwrite - 1;
        if nwrite == 0 {
          res := res.(w := true);
        }
      }
      r := 0;
      if res != NONE {
        r := BackendDel(fd, oldEvents, res);
        if r == -1 {
          return -1;
        }
        r := 1;
        Told(es0, cs0, entries, changes, fd, WantOf(left), direct);
      } else {
        Lookup(entries, changes, fd);
      }
      DirectIndex(entries, changes, fd);
      Fill(fd, nread, nwrite, left, es0, cs0, res != NONE && !direct);
      DirectIndex(entries, changes, fd);
      assert WantOf(left) == Mask(oldEvents.r && !res.r, oldEvents.w && !res.w);
      assert !direct || res == NONE ==> kernel.table == k0;
      forall f | f != fd
        ensures Expected(entries, changes, f) == Expected(es0, cs0, f) && MaskOf(kernel.table, f) == MaskOf(k0, f)
      {
      }
    }

    /** epoll_apply_changes */
    method ApplyChanges() returns (r: int)
      requires Valid()
      modifies kernel`table
      ensures forall f :: Applied(old(kernel.table), kernel.table, kernel.open, entries, changes, |changes|, f)
      ensures r == if exists i | 0 <= i < |changes| :: Fails(changes[i], kernel.open) then -1 else 0
    {
      hide SlotsOk, ChangesOk;
      r := 0;
      var i := 0;
      while i < |changes|
        invariant i <= |changes|
        invariant forall f :: Applied(old(kernel.table), kernel.table, kernel.open, entries, changes, i, f)
        invariant r == if exists k | 0 <= k < i :: Fails(changes[k], kernel.open) then -1 else 0
      {
        ghost var before := kernel.table;
        var e := ApplyOneChange(kernel, changes[i]);
        if e < 0 {
          r := -1;
        }
        i := i + 1;
        OneMoreApplied(old(kernel.table), before, kernel.table, kernel.open, entries, changes, i - 1, i);
      }
    }

    /** event_changelist_remove_all */
    method RemoveAll()
      requires Valid()
      modifies this`entries, this`changes
      ensures Valid() && changes == [] && |entries| == |old(entries)|
      ensures forall f :: Events(f) == old(Events(f))
    {
      hide IndexOk, ChangesOk, SlotOk;
      ghost var es0, cs := entries, changes;
      ClearedNone(es0);
      var i := 0;
      while i < |changes|
        invariant i <= |changes| && |entries| == |es0| && SlotsOk(entries) && changes == cs
        invariant forall f :: Cleared(es0, entries, i, f)
      {
        var fd := changes[i].fd;
        KnownChange(es0, changes, i);
        assert Cleared(es0, entries, i, fd);
        assert IndexAt(entries, fd) == i + 1;
        ResetIndex(es0, entries, i, i + 1, fd);
        entries := entries[fd := entries[fd].(idxplus1 := 0)];
        i := i + 1;
      }
      NoneLeft(es0, entries, changes);
      changes := [];
    }

    /** The part of epoll_dispatch before it waits. */
    method Dispatch()
      requires Valid()
      modifies this`entries, this`changes, kernel`table
      ensures Valid() && changes == [] && |entries| == |old(entries)|
      ensures forall f :: Events(f) == old(Events(f))
      ensures forall f | f in kernel.open :: MaskOf(kernel.table, f) == Want(f) <==> old(InSync(f)) || old(Issued(f))
      ensures forall f | f !in kernel.open || !old(Issued(f)) :: MaskOf(kernel.table, f) == MaskOf(old(kernel.table), f)
    {
      hide SlotsOk;
      ghost var es, cs := entries, changes;
      var _ := ApplyChanges();
      RemoveAll();
      forall f
        ensures f in kernel.open ==> (MaskOf(kernel.table, f) == Want(f) <==> old(InSync(f)) || old(Issued(f)))
        ensures f !in kernel.open || !old(Issued(f)) ==> MaskOf(kernel.table, f) == MaskOf(old(kernel.table), f)
      {
        assert Applied(old(kernel.table), kernel.table, kernel.open, es, cs, |cs|, f);
        assert IndexRight(es, cs, f);
        var k := IndexAt(es, f);
        if k > 0 {
          assert ChangeOk(es, cs, k - 1);
        }
      }
    }
  }

  /** The change cannot be made: the fd is closed, and something was to be watched for. */
  predicate Fails(c: Change, open: set<int>)
  {
    c.fd !in open && !c.IsNoop() && c.Wanted() != NONE
  }

  /** What the first `n` changes have done for `f`. */
  ghost predicate Applied(before: map<int, Mask>, after: map<int, Mask>, open: set<int>, es: seq<Slot>,
      cs: seq<Change>, n: nat, f: int)
  {
    var k := IndexAt(es, f);
    MaskOf(after, f) ==
      if 0 < k <= n <= |cs| && f in open && !cs[k - 1].IsNoop() then cs[k - 1].Wanted() else MaskOf(before, f)
  }

  lemma {:induction false} OneMoreApplied(t0: map<int, Mask>, t1: map<int, Mask>, t2: map<int, Mask>, open: set<int>,
      es: seq<Slot>, cs: seq<Change>, i: nat, n: nat)
    requires i < |cs| && n == i + 1 && IndexOk(es, cs) && OnlyChanges(t1, t2, cs[i].fd)
    requires forall f :: Applied(t0, t1, open, es, cs, i, f)
    requires MaskOf(t2, cs[i].fd) == if cs[i].IsNoop() || cs[i].fd !in open then MaskOf(t1, cs[i].fd) else cs[i].Wanted()
    ensures forall f :: Applied(t0, t2, open, es, cs, n, f)
  {
    assert ChangeKnown(es, cs, i);
    forall f
      ensures Applied(t0, t2, open, es, cs, n, f)
    {
      assert Applied(t0, t1, open, es, cs, i, f) && IndexRight(es, cs, f);
    }
  }

  /** The first `n` changes' fds have forgotten their index. */
  ghost predicate Cleared(es0: seq<Slot>, es: seq<Slot>, n: nat, f: int)
  {
    && EventsAt(es, f) == EventsAt(es0, f) && (SlotAt(es, f).Slot? <==> SlotAt(es0, f).Slot?)
    && IndexAt(es, f) == if IndexAt(es0, f) <= n then 0 else IndexAt(es0, f)
  }

  lemma {:induction false} KnownChange(es: seq<Slot>, cs: seq<Change>, i: nat)
    requires IndexOk(es, cs) && i < |cs|
    ensures IndexAt(es, cs[i].fd) == i + 1 && forall f | IndexAt(es, f) == i + 1 :: f == cs[i].fd
  {
    assert ChangeKnown(es, cs, i);
    forall f | IndexAt(es, f) == i + 1
      ensures f == cs[i].fd
    {
      assert IndexRight(es, cs, f);
    }
  }

  lemma {:induction false} ClearedNone(es: seq<Slot>)
    ensures forall f :: Cleared(es, es, 0, f)
  {
  }

  lemma {:induction false} ResetIndex(es0: seq<Slot>, es: seq<Slot>, i: nat, n: nat, fd: int)
    requires n == i + 1
    requires forall f :: Cleared(es0, es, i, f)
    requires SlotsOk(es) && IndexAt(es, fd) == i + 1
    requires forall f | IndexAt(es0, f) == i + 1 :: f == fd
    ensures 0 <= fd < |es| && es[fd].Slot?
    ensures var es' := es[fd := es[fd].(idxplus1 := 0)]; SlotsOk(es') && forall f :: Cleared(es0, es', n, f)
  {
    var es' := es[fd := es[fd].(idxplus1 := 0)];
    assert SlotOk(es[fd], fd);
    forall f
      ensures Cleared(es0, es', n, f)
    {
      assert Cleared(es0, es, i, f);
      assert f != fd ==> SlotAt(es', f) == SlotAt(es, f);
    }
  }

  lemma {:induction false} NoneLeft(es0: seq<Slot>, es: seq<Slot>, cs: seq<Change>)
    requires IndexOk(es0, cs) && forall f :: Cleared(es0, es, |cs|, f)
    ensures IndexOk(es, []) && ChangesOk(es, []) && forall f :: EventsAt(es, f) == EventsAt(es0, f)
  {
    forall f
      ensures IndexRight(es, [], f) && EventsAt(es, f) == EventsAt(es0, f)
    {
      assert IndexRight(es0, cs, f) && Cleared(es0, es, |cs|, f);
    }
  }

  lemma {:induction false} CountIn(events: seq<Event>, ev: Event)
    requires ev in events
    ensures (ev.evRead ==> Readers(events) > 0) && (ev.evWrite ==> Writers(events) > 0)
  {
    if events[0] != ev {
      CountIn(events[1..], ev);
    }
  }

  /** One more event on the fd would overflow a counter. */
  predicate TooMany(events: seq<Event>, ev: Event)
  {
    (ev.evRead && Readers(events) >= MAX_EVENTS) || (ev.evWrite && Writers(events) >= MAX_EVENTS)
  }

  /** What the backend must be told when `ev` comes. */
  function Turned(events: seq<Event>, ev: Event): Mask
  {
    Mask(ev.evRead && Readers(events) == 0, ev.evWrite && Writers(events) == 0)
  }

  /** ... and when it goes. */
  function TurnedOff(events: seq<Event>, ev: Event): Mask
  {
    Mask(ev.evRead && Readers(events) == 1, ev.evWrite && Writers(events) == 1)
  }

  /** The backend must be told of what nobody wanted to hear of before, or does afterwards. */
  lemma {:induction false} TurnedMeans(events: seq<Event>, ev: Event)
    ensures var was, next, on := WantOf(events), WantOf(events + [ev]), Turned(events, ev);
            (on.r <==> next.r && !was.r) && (on.w <==> next.w && !was.w)
    ensures ev in events ==>
              var was, next, off := WantOf(events), WantOf(Without(events, ev)), TurnedOff(events, ev);
              (off.r <==> was.r && !next.r) && (off.w <==> was.w && !next.w)
  {
    CountsAdd(events, ev);
    if ev in events {
      CountsDel(events, ev);
      CountIn(events, ev);
    }
  }

  /** An event is refused exactly if one of the two counters of the fd would no longer fit 16 bits. */
  lemma {:induction false} TooManyMeans(events: seq<Event>, ev: Event)
    ensures Readers(events) < 0x1_0000 && Writers(events) < 0x1_0000 ==>
      (TooMany(events, ev) <==> Readers(events + [ev]) >= 0x1_0000 || Writers(events + [ev]) >= 0x1_0000)
  {
    CountsAdd(events, ev);
  }

  lemma {:induction false} SlotRight(es: seq<Slot>, fd: int)
    requires SlotsOk(es)
    ensures SlotOk(SlotAt(es, fd), fd)
  {
  }

  lemma {:induction false} Told(es0: seq<Slot>, cs0: seq<Change>, es: seq<Slot>, cs: seq<Change>, fd: nat, m: Mask,
      direct: bool)
    requires if direct then es == es0 && cs == cs0 && fd < |es| && es[fd].Slot? && IndexOk(es, cs) else Requested(es0, cs0, es, cs, fd, m)
    ensures fd < |es| == |es0| && es[fd].Slot? && es0[fd].Slot? && es[fd].events == es0[fd].events
    ensures IndexOk(es, cs) && (!direct ==> IndexAt(es, fd) > 0)
  {
  }

  /** Without pending changes, an fd has no index. */
  lemma {:induction false} DirectIndex(es: seq<Slot>, cs: seq<Change>, fd: int)
    requires IndexOk(es, cs)
    ensures cs == [] ==> forall f :: IndexAt(es, f) == 0 && Expected(es, cs, f) == WantOf(EventsAt(es, f))
    ensures IndexAt(es, fd) == 0 ==> Expected(es, cs, fd) == WantOf(EventsAt(es, fd))
  {
    forall f | cs == []
      ensures IndexAt(es, f) == 0
    {
      assert IndexRight(es, cs, f);
    }
  }

  lemma {:induction false} SlotFilled(es0: seq<Slot>, cs0: seq<Change>, es: seq<Slot>, cs: seq<Change>, fd: nat,
      s: Slot, told: bool)
    requires fd < |es| && s.Slot? && es[fd].Slot? && s.idxplus1 == es[fd].idxplus1 && SlotOk(s, fd)
    requires if told then Requested(es0, cs0, es, cs, fd, WantOf(s.events))
             else SlotsOk(es) && IndexOk(es, cs) && ChangesOk(es, cs) && es0 == es && cs0 == cs
                  && (IndexAt(es, fd) > 0 ==> WantOf(s.events) == WantOf(EventsAt(es, fd)))
    ensures var es' := es[fd := s];
            && SlotsOk(es') && IndexOk(es', cs) && ChangesOk(es', cs) && IndexOk(es0, cs0)
            && (forall f | f != fd :: EventsAt(es', f) == EventsAt(es0, f)) && EventsAt(es', fd) == s.events
            && (forall f | f != fd || IndexAt(es, fd) > 0 :: Expected(es', cs, f) == Expected(es0, cs0, f))
            && IndexAt(es', fd) == IndexAt(es, fd)
  {
    var es' := es[fd := s];
    SlotSet(es, cs, fd, s);
    forall k: nat | k < |cs|
      ensures ChangeOk(es', cs, k)
    {
      assert ChangeKnown(es, cs, k);
      assert !told ==> ChangeOk(es, cs, k);
      if told && cs[k].fd != fd {
        assert ChangeOk(es, cs, k);
      }
    }
    forall f | f != fd || IndexAt(es, fd) > 0
      ensures Expected(es', cs, f) == Expected(es, cs, f)
    {
      assert IndexRight(es, cs, f) && IndexRight(es', cs, f);
    }
  }

  /** The backend has noted that `fd` is to be watched for `m`; the events in the slots are still the old ones. */
  ghost predicate Requested(es0: seq<Slot>, cs0: seq<Change>, es: seq<Slot>, cs: seq<Change>, fd: nat, m: Mask)
  {
    && SlotsOk(es) && IndexOk(es0, cs0) && IndexOk(es, cs) && fd < |es| == |es0| && es0[fd].Slot?
    && es[fd] == es0[fd].(idxplus1 := IndexAt(es, fd))
    && (forall f :: EventsAt(es, f) == EventsAt(es0, f))
    && (forall f :: Expected(es, cs, f) == Expected(es0, cs0, f))
    && 0 < IndexAt(es, fd) <= |cs| && cs[IndexAt(es, fd) - 1].Wanted() == m
    && (forall i: nat | i < |cs| && cs[i].fd != fd :: ChangeOk(es, cs, i))
  }

  lemma {:induction false} Asked(es: seq<Slot>, cs: seq<Change>, i: nat)
    requires ChangesOk(es, cs) && i < |cs|
    ensures cs[i].Wanted() == WantOf(EventsAt(es, cs[i].fd))
  {
    assert ChangeOk(es, cs, i);
  }

  /** The wishes of one change replaced. */
  lemma {:induction false} ChangeSet(es0: seq<Slot>, cs0: seq<Change>, es: seq<Slot>, cs: seq<Change>, i: nat,
      c: Change)
    requires SlotsOk(es) && IndexOk(es0, cs0) && IndexOk(es, cs) && ChangesOk(es, cs)
    requires i < |cs| && c.fd == cs[i].fd && c.oldEvents == cs[i].oldEvents && IndexAt(es, c.fd) == i + 1
    requires 0 <= c.fd < |es| == |es0| && es0[c.fd].Slot? && es[c.fd] == es0[c.fd].(idxplus1 := i + 1)
    requires forall f :: EventsAt(es, f) == EventsAt(es0, f)
    requires forall f :: Expected(es, cs, f) == Expected(es0, cs0, f)
    ensures Requested(es0, cs0, es, cs[i := c], c.fd, c.Wanted())
  {
    var cs' := cs[i := c];
    forall k: nat | k < |cs|
      ensures ChangeKnown(es, cs', k) && (cs'[k].fd != c.fd ==> ChangeOk(es, cs', k))
    {
      assert ChangeKnown(es, cs, k) && ChangeOk(es, cs, k);
    }
    forall f
      ensures IndexRight(es, cs', f)
    {
      assert IndexRight(es, cs, f);
    }
    forall f
      ensures Expected(es, cs', f) == Expected(es, cs, f)
    {
      assert IndexRight(es, cs, f) && IndexRight(es, cs', f);
    }
  }

  /** The change that an fd's index leads to. */
  lemma {:induction false} Lookup(es: seq<Slot>, cs: seq<Change>, fd: nat)
    requires fd < |es| && es[fd].Slot? && IndexOk(es, cs)
    ensures IndexAt(es, fd) == es[fd].idxplus1
    ensures var i := es[fd].idxplus1; i > 0 ==> i <= |cs| && cs[i - 1].fd == fd
    ensures es[fd].(idxplus1 := es[fd].idxplus1) == es[fd]
  {
    assert IndexRight(es, cs, fd);
  }

  /** An empty change at the end of the list. */
  lemma {:induction false} NewChange(es: seq<Slot>, cs: seq<Change>, fd: nat)
    requires fd < |es| && es[fd].Slot? && es[fd].idxplus1 == 0
    requires SlotsOk(es) && IndexOk(es, cs) && ChangesOk(es, cs)
    ensures var es', cs' := es[fd := es[fd].(idxplus1 := |cs| + 1)], cs + [Change(fd, WantOf(EventsAt(es, fd)), Keep, Keep)];
            && SlotsOk(es') && IndexOk(es', cs') && ChangesOk(es', cs')
            && (forall f :: EventsAt(es', f) == EventsAt(es, f))
            && (forall f :: Expected(es', cs', f) == Expected(es, cs, f))
            && IndexAt(es', fd) == |cs| + 1
  {
    var es' := es[fd := es[fd].(idxplus1 := |cs| + 1)];
    var cs' := cs + [Change(fd, WantOf(EventsAt(es, fd)), Keep, Keep)];
    assert forall f | f != fd :: SlotAt(es', f) == SlotAt(es, f);
    assert forall f | f != fd :: IndexAt(es', f) == IndexAt(es, f);
    assert forall f :: EventsAt(es', f) == EventsAt(es, f);
    forall i: nat | i < |cs'|
      ensures ChangeKnown(es', cs', i) && ChangeOk(es', cs', i)
    {
      if i < |cs| {
        assert ChangeKnown(es, cs, i) && ChangeOk(es, cs, i);
      }
    }
    forall f
      ensures IndexRight(es', cs', f)
    {
      assert IndexRight(es, cs, f);
    }
    forall f
      ensures Expected(es', cs', f) == Expected(es, cs, f)
    {
      assert IndexRight(es, cs, f) && IndexRight(es', cs', f);
    }
  }

  // ---------- whole runs ----------

  /** What happens to a base: the program's calls, and an fd changed behind its back. */
  datatype Step =
    | AddEvent(ev: Event)
    | DelEvent(ev: Event)
    | Poll
    | Meddle(fd: int, isOpen: bool, kept: bool, mask: Mask)

  /** The events of an fd after a run, by the program's calls alone. */
  function After(steps: seq<Step>, fd: int): (r: seq<Event>)
  {
    if steps == [] then [] else
      var s, was := steps[|steps| - 1], After(steps[..|steps| - 1], fd);
      match s
      case AddEvent(ev) => if ev.fd == fd && fd >= 0 && !TooMany(was, ev) then was + [ev] else was
      case DelEvent(ev) => if ev.fd == fd then Without(was, ev) else was
      case _ => was
  }

  /** Nobody meddles with the fd, and it is open if it is used. */
  predicate Calm(steps: seq<Step>, open: set<int>, fd: int)
  {
    (forall i | 0 <= i < |steps| && steps[i].Meddle? :: steps[i].fd != fd) && fd in open
  }

  lemma {:induction false} WithoutAbsent(events: seq<Event>, ev: Event)
    requires ev !in events
    ensures Without(events, ev) == events
  {
    if events != [] {
      WithoutAbsent(events[1..], ev);
    }
  }

  /**
   Any run, with either backend: after the next poll the kernel watches each
   fd that was left alone for exactly what its events want.  The two backends
   therefore come to the same.
  */
  method Run(steps: seq<Step>, open: set<int>, direct: bool) returns (base: EventBase)
    ensures base.Valid() && base.changes == []
    ensures forall fd | Calm(steps, open, fd) ::
      base.Events(fd) == After(steps, fd) && MaskOf(base.kernel.table, fd) == WantOf(After(steps, fd))
  {
    var kernel := new Kernel(open);
    base := new EventBase(kernel, direct);
    var i := 0;
    while i < |steps|
      invariant i <= |steps| && base.Valid() && base.kernel == kernel && fresh(kernel) && fresh(base)
      invariant forall fd | Calm(steps, open, fd) :: base.InSync(fd) && fd in kernel.open && base.Events(fd) == After(steps[..i], fd)
    {
      var s := steps[i];
      assert steps[..i + 1][..i] == steps[..i] && steps[..i + 1][i] == s;
      RunStep(base, s);
      i := i + 1;
    }
    assert steps[..i] == steps;
    base.Dispatch();
  }

  /** One step of a run; an event that was not added is not deleted. */
  method RunStep(base: EventBase, s: Step)
    requires base.Valid()
    modifies base, base.kernel
    ensures base.Valid()
    ensures forall fd | fd in old(base.kernel.open) && old(base.InSync(fd)) && !(s.Meddle? && s.fd == fd) ::
      && base.InSync(fd) && fd in base.kernel.open
      && base.Events(fd) == match s
         case AddEvent(ev) =>
           if ev.fd == fd && fd >= 0 && !TooMany(old(base.Events(fd)), ev) then old(base.Events(fd)) + [ev] else old(base.Events(fd))
         case DelEvent(ev) => if ev.fd == fd then Without(old(base.Events(fd)), ev) else old(base.Events(fd))
         case _ => old(base.Events(fd))
  {
    match s {
    case AddEvent(ev) =>
      var _ := base.IoAdd(ev);
    case DelEvent(ev) =>
      if 0 <= ev.fd < |base.entries| && base.entries[ev.fd].Slot? && ev in base.entries[ev.fd].events {
        var _ := base.IoDel(ev);
      } else {
        WithoutAbsent(base.Events(ev.fd), ev);
      }
    case Poll =>
      base.Dispatch();
      DirectIndex(base.entries, base.changes, 0);
    case Meddle(fd, isOpen, kept, mask) =>
      base.kernel.Disturb(fd, isOpen, kept, mask);
    }
  }
}
