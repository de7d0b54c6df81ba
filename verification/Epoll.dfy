/** The kernel's interest table and the changes made to it (epoll.c). */
module Epoll {
  /** Interest in reading and writing. */
  datatype Mask = Mask(r: bool, w: bool)

  const NONE := Mask(false, false)

  /** read_change, write_change */
  datatype Wish = Keep | Add | Del

  /** struct event_change: what is wanted for an fd whose events were `old`. */
  datatype Change = Change(fd: int, oldEvents: Mask, readChange: Wish, writeChange: Wish)
  {
    /** The events that the change asks for. */
    function Wanted(): Mask
    {
      Mask(Apply(oldEvents.r, readChange), Apply(oldEvents.w, writeChange))
    }

    predicate IsNoop()
    {
      readChange.Keep? && writeChange.Keep?
    }
  }

  function Apply(was: bool, wish: Wish): bool
  {
    match wish
    case Keep => was
    case Add => true
    case Del => false
  }

  datatype Op = CtlAdd | CtlMod | CtlDel
  datatype Errno = Fine | Enoent | Eexist | Ebadf

  /** The events the kernel watches for on `fd`. */
  function MaskOf(table: map<int, Mask>, fd: int): Mask
  {
    if fd in table then table[fd] else NONE
  }

  /** An epoll instance: the interest table, and the fds that are open. */
  class Kernel {
    var table: map<int, Mask>
    var open: set<int>

    constructor (open: set<int>)
      ensures table == map[] && this.open == open
    {
      table, this.open := map[], open;
    }

    /** epoll_ctl */
    method Ctl(op: Op, fd: int, events: Mask) returns (e: Errno)
      modifies this`table
      ensures e == if fd !in open then Ebadf
                   else if op.CtlAdd? then (if fd in old(table) then Eexist else Fine)
                   else if fd in old(table) then Fine else Enoent
      ensures table == if e != Fine then old(table) else if op.CtlDel? then old(table) - {fd} else old(table)[fd := events]
    {
      if fd !in open {
        return Ebadf;
      }
      if op.CtlAdd? && fd in table {
        return Eexist;
      }
      if !op.CtlAdd? && fd !in table {
        return Enoent;
      }
      table := if op.CtlDel? then table - {fd} else table[fd := events];
      e := Fine;
    }

    /** Whatever may happen to an fd behind the program's back: closed, opened again, duplicated. */
    method Disturb(fd: int, isOpen: bool, kept: bool, mask: Mask)
      modifies this
      ensures open == (if isOpen then old(open) + {fd} else old(open) - {fd})
      ensures forall f | f != fd :: (f in table <==> f in old(table)) && MaskOf(table, f) == MaskOf(old(table), f)
    {
      open := if isOpen then open + {fd} else open - {fd};
      table := if kept then table[fd := mask] else table - {fd};
    }
  }

  /** Nothing but `fd` changes in the table. */
  ghost predicate OnlyChanges(before: map<int, Mask>, after: map<int, Mask>, fd: int)
  {
    forall f | f != fd :: (f in after <==> f in before) && MaskOf(after, f) == MaskOf(before, f)
  }

  /**
   epoll_apply_one_change: for an open fd, whatever the kernel held for it, a
   call that is issued makes the kernel watch for what the change asks for.
  */
  method ApplyOneChange(kernel: Kernel, ch: Change) returns (r: int)
    modifies kernel`table
    ensures OnlyChanges(old(kernel.table), kernel.table, ch.fd)
    ensures ch.IsNoop() ==> r == 0 && kernel.table == old(kernel.table)
    ensures !ch.IsNoop() && ch.fd in kernel.open ==>
      r == 0 && MaskOf(kernel.table, ch.fd) == ch.Wanted() && (ch.fd in kernel.table <==> ch.Wanted() != NONE)
    ensures ch.fd !in kernel.open ==>
      kernel.table == old(kernel.table) && r == if ch.IsNoop() || ch.Wanted() == NONE then 0 else -1
  {
    var events, op := NONE, CtlAdd;
    if ch.readChange.Add? || ch.writeChange.Add? {
      if ch.readChange.Add? {
        events := events.(r := true);
      } else if ch.readChange.Del? {
      } else if ch.oldEvents.r {
        events := events.(r := true);
      }
      if ch.writeChange.Add? {
        events := events.(w := true);
      } else if ch.writeChange.Del? {
      } else if ch.oldEvents.w {
        events := events.(w := true);
      }
      if ch.oldEvents != NONE {
        op := CtlMod;
      }
    } else if ch.readChange.Del? || ch.writeChange.Del? {
      op := CtlDel;
      if ch.readChange.Del? {
        if ch.writeChange.Del? {
          events := Mask(true, true);
        } else if ch.oldEvents.w {
          events, op := Mask(false, true), CtlMod;
        } else {
          events := Mask(true, false);
        }
      } else if ch.writeChange.Del? {
        if ch.oldEvents.r {
          events, op := Mask(true, false), CtlMod;
        } else {
          events := Mask(false, true);
        }
      }
    }
    if events == NONE {
      return 0;
    }
    var e := kernel.Ctl(op, ch.fd, events);
    if e != Fine {
      if op.CtlMod? && e == Enoent {
        e := kernel.Ctl(CtlAdd, ch.fd, events);
        if e != Fine {
          return -1;
        }
      } else if op.CtlAdd? && e == Eexist {
        e := kernel.Ctl(CtlMod, ch.fd, events);
        if e != Fine {
          return -1;
        }
      } else if op.CtlDel? && (e == Enoent || e == Ebadf) {
        // the fd was closed before the change could be made
      } else {
        return -1;
      }
    }
    return 0;
  }
}
