/** The descriptor calls as the program makes them, over reference counts and tables updated in
    place; each call is the step of the model. */
module Descriptors {
  import opened DescModel

  class Kernel {
    var tables: seq<seq<Entry>>
    var ofds: seq<Ofd>
    ghost var ids: seq<nat>
    ghost var issued: nat
    ghost var closed: seq<nat>

    ghost function Abs(): State
      reads this
    {
      State(tables, ofds, ids, issued, closed)
    }

    constructor (n: nat, m: nat)
      ensures Abs() == Start(n, m)
    {
      tables := seq(n, _ => seq(m, _ => NONE));
      ofds := seq(n * m, _ => FREE);
      ids := seq(n * m, _ => 0);
      issued, closed := 0, [];
    }

    method Lookup(p: nat, fd: int) returns (i: int)
      requires Table(Abs(), p)
      ensures i == if Found(Abs(), p, fd) then Index(Abs(), p, fd) else -1
    {
      if fd < 0 || fd >= |tables[p]| || tables[p][fd].ofd == 0 || tables[p][fd].ofd > |ofds| {
        return -1;
      }
      var k := tables[p][fd].ofd - 1;
      return if ofds[k].refs != 0 then k else -1;
    }

    method SetEntry(p: nat, fd: nat, e: Entry)
      requires Table(Abs(), p) && fd < |tables[p]|
      modifies this
      ensures Abs() == old(Abs()).(tables := Put(old(tables), p, fd, e))
    {
      tables := tables[p := tables[p][fd := e]];
    }

    method OpenFd(p: nat, known: bool, d: Ofd, cloexec: bool) returns (r: Code)
      requires Table(Abs(), p) && |ids| == |ofds|
      modifies this
      ensures (Abs(), r) == Open(old(Abs()), p, known, d, cloexec)
    {
      if !known {
        return EMFILE;
      }
      var oi := 0;
      while oi < |ofds| && ofds[oi].refs != 0
        invariant 0 <= oi <= |ofds| && FirstFree(ofds, 0) == FirstFree(ofds, oi)
      {
        oi := oi + 1;
      }
      if oi == |ofds| {
        return EMFILE;
      }
      var fd := 0;
      while fd < |tables[p]| && tables[p][fd].ofd != 0
        invariant 0 <= fd <= |tables[p]| && FirstUnused(tables[p], 0) == FirstUnused(tables[p], fd)
      {
        fd := fd + 1;
      }
      if fd == |tables[p]| {
        return EMFILE;
      }
      ofds := ofds[oi := d.(refs := 1, rw := false)];
      ids := ids[oi := issued];
      issued := issued + 1;
      SetEntry(p, fd, Entry(oi + 1, cloexec));
      return Fd(fd);
    }

    method CloseFd(p: nat, fd: int) returns (r: Code)
      requires Table(Abs(), p) && |ids| == |ofds|
      modifies this
      ensures (Abs(), r) == Close(old(Abs()), p, fd)
    {
      var i := Lookup(p, fd);
      if i < 0 {
        return EBADF;
      }
      SetEntry(p, fd, NONE);
      ofds := ofds[i := ofds[i].(refs := ofds[i].refs - 1)];
      if ofds[i].refs == 0 {
        closed := closed + [ids[i]];
        ofds := ofds[i := FREE];
        assert ofds == old(ofds)[i := FREE];
      }
      return Fd(0);
    }

    method Retain(i: nat) returns (ok: bool)
      requires i < |ofds|
      modifies this
      ensures ok <==> old(ofds[i].refs) != FULL
      ensures Abs() == if ok then Retained(old(Abs()), i) else old(Abs())
    {
      ok := ofds[i].refs != FULL;
      if ok {
        ofds := ofds[i := ofds[i].(refs := ofds[i].refs + 1)];
      }
    }

    method DupToFd(p: nat, oldfd: int, newfd: int, cloexec: bool) returns (r: Code)
      requires Table(Abs(), p) && |ids| == |ofds|
      modifies this
      ensures (Abs(), r) == DupTo(old(Abs()), p, oldfd, newfd, cloexec)
    {
      var i := Lookup(p, oldfd);
      if i < 0 || newfd < 0 || newfd >= |tables[p]| {
        return EBADF;
      }
      if oldfd == newfd {
        return Fd(newfd);
      }
      var name := tables[p][oldfd].ofd;
      var ok := Retain(i);
      if !ok {
        return EMFILE;
      }
      if tables[p][newfd].ofd != 0 {
        var _ := CloseFd(p, newfd);
      }
      SetEntry(p, newfd, Entry(name, cloexec));
      return Fd(newfd);
    }

    method DupMinFd(p: nat, oldfd: int, minfd: int, cloexec: bool) returns (r: Code)
      requires Table(Abs(), p) && |ids| == |ofds|
      modifies this
      ensures (Abs(), r) == DupMin(old(Abs()), p, oldfd, minfd, cloexec)
    {
      var i := Lookup(p, oldfd);
      if i < 0 {
        return EBADF;
      }
      if minfd < 0 || minfd >= |tables[p]| {
        return EMFILE;
      }
      var fd := minfd;
      while fd < |tables[p]| && tables[p][fd].ofd != 0
        invariant minfd <= fd <= |tables[p]| && FirstUnused(tables[p], minfd) == FirstUnused(tables[p], fd)
      {
        fd := fd + 1;
      }
      if fd == |tables[p]| {
        return EMFILE;
      }
      var ok := Retain(i);
      if !ok {
        return EMFILE;
      }
      SetEntry(p, fd, Entry(tables[p][oldfd].ofd, cloexec));
      return Fd(fd);
    }

    /** All or nothing: the first pass looks for a full count, the second adds. */
    method TableRetain(p: nat) returns (ok: bool)
      requires Table(Abs(), p)
      modifies this`ofds
      ensures ok <==> !AnyFull(old(Abs()), p)
      ensures Abs() == if ok then old(Abs()).(ofds := Shared(old(ofds), old(tables[p]))) else old(Abs())
    {
      ghost var s := Abs();
      var fd := 0;
      while fd < |tables[p]|
        invariant 0 <= fd <= |tables[p]| && Abs() == s
        invariant forall j :: 0 <= j < fd && Found(s, p, j) ==> ofds[Index(s, p, j)].refs != FULL
      {
        var i := Lookup(p, fd);
        if i >= 0 && ofds[i].refs == FULL {
          return false;
        }
        fd := fd + 1;
      }
      fd := 0;
      while fd < |tables[p]|
        invariant 0 <= fd <= |tables[p]| && Abs() == s.(ofds := ofds) && ofds == Shared(s.ofds, s.tables[p][..fd])
      {
        ghost var row := s.tables[p];
        assert row[..fd + 1][..fd] == row[..fd];
        var i := Lookup(p, fd);
        if i >= 0 {
          ofds := ofds[i := ofds[i].(refs := (ofds[i].refs + 1) % (FULL + 1))];
        }
        fd := fd + 1;
      }
      assert s.tables[p][..fd] == s.tables[p];
      return true;
    }

    /** fork: q is the unused table found for the child, or negative if there is none. */
    method ForkInherit(p: nat, q: int) returns (r: Code)
      requires Table(Abs(), p) && (q >= 0 ==> Unused(Abs(), q))
      modifies this
      ensures if q < 0 then r == ENOMEM && Abs() == old(Abs()) else (Abs(), r) == Fork(old(Abs()), p, q)
    {
      if q < 0 {
        return ENOMEM;
      }
      var empty := tables[q];
      tables := tables[q := tables[p]];
      var ok := TableRetain(q);
      if !ok {
        tables := tables[q := empty];
        assert tables == old(tables);
        return EAGAIN;
      }
      return Fd(0);
    }

    method CloseAll(p: nat)
      requires Table(Abs(), p) && |ids| == |ofds|
      modifies this
      ensures Abs() == CloseFrom(old(Abs()), p, 0)
    {
      var fd := 0;
      while fd < |tables[p]|
        invariant Table(Abs(), p) && |ids| == |ofds| && fd <= |tables[p]|
        invariant CloseFrom(Abs(), p, fd) == CloseFrom(old(Abs()), p, 0)
      {
        var _ := CloseFd(p, fd);
        fd := fd + 1;
      }
    }
  }
}
