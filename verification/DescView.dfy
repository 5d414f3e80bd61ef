/** What processes see of their descriptors: a machine without reference counts, in which each
    descriptor shows the serial number and the data of one description, and the proof that tables,
    descriptions and counts implement it. */
module DescView {
  import opened DescModel

  datatype Data = Data(kind: nat, rw: bool, nonblock: bool, accmode: nat, backing: int, offset: nat)

  datatype Seen = Nobody | Seen(id: nat, cloexec: bool, data: Data)

  datatype View = View(seen: seq<seq<Seen>>, issued: nat, closed: seq<nat>)

  // ---- the machine without counts ----------------------------------------------------------------

  predicate IsOpen(v: View, p: nat, fd: int)
    requires p < |v.seen|
  {
    0 <= fd < |v.seen[p]| && v.seen[p][fd].Seen?
  }

  ghost predicate Names(seen: seq<seq<Seen>>, id: nat) {
    exists p, fd :: 0 <= p < |seen| && 0 <= fd < |seen[p]| && seen[p][fd].Seen? && seen[p][fd].id == id
  }

  /** The least descriptor from fd on that is not open. */
  function Least(row: seq<Seen>, fd: nat): (k: nat)
    requires fd <= |row|
    ensures fd <= k <= |row| && (k < |row| ==> row[k] == Nobody) && forall j :: fd <= j < k ==> row[j].Seen?
    decreases |row| - fd
  {
    if fd == |row| || row[fd] == Nobody then fd else Least(row, fd + 1)
  }

  /** Put x at descriptor fd; the description shown there before is closed if this was its last name. */
  ghost function Show(v: View, p: nat, fd: nat, x: Seen): (w: View)
    requires p < |v.seen| && fd < |v.seen[p]|
  {
    var seen := v.seen[p := v.seen[p][fd := x]];
    var was := v.seen[p][fd];
    View(seen, v.issued, if was.Seen? && !Names(seen, was.id) then v.closed + [was.id] else v.closed)
  }

  /** All 65535 descriptors of the system name the description id. */
  ghost predicate Crowded(v: View, id: nat) {
    && v.seen != [] && |v.seen| * |v.seen[0]| == FULL
    && forall p, fd :: 0 <= p < |v.seen| && 0 <= fd < |v.seen[p]| ==> v.seen[p][fd].Seen? && v.seen[p][fd].id == id
  }

  ghost function ViewOpen(v: View, p: nat, known: bool, d: Data, cloexec: bool): (View, Code)
    requires p < |v.seen|
  {
    var fd := Least(v.seen[p], 0);
    if !known || fd == |v.seen[p]| then (v, EMFILE)
    else (Show(v, p, fd, Seen(v.issued, cloexec, d)).(issued := v.issued + 1), Fd(fd))
  }

  ghost function ViewClose(v: View, p: nat, fd: int): (r: (View, Code))
    requires p < |v.seen|
    ensures |r.0.seen| == |v.seen| && |r.0.seen[p]| == |v.seen[p]|
  {
    if !IsOpen(v, p, fd) then (v, EBADF) else (Show(v, p, fd, Nobody), Fd(0))
  }

  ghost function ViewDupTo(v: View, p: nat, oldfd: int, newfd: int, cloexec: bool): (View, Code)
    requires p < |v.seen|
  {
    if !IsOpen(v, p, oldfd) || !(0 <= newfd < |v.seen[p]|) then (v, EBADF)
    else if oldfd == newfd then (v, Fd(newfd))
    else if Crowded(v, v.seen[p][oldfd].id) then (v, EMFILE)
    else (Show(v, p, newfd, v.seen[p][oldfd].(cloexec := cloexec)), Fd(newfd))
  }

  ghost function ViewDupMin(v: View, p: nat, oldfd: int, minfd: int, cloexec: bool): (View, Code)
    requires p < |v.seen|
  {
    if !IsOpen(v, p, oldfd) then (v, EBADF)
    else if !(0 <= minfd < |v.seen[p]|) || Least(v.seen[p], minfd) == |v.seen[p]| then (v, EMFILE)
    else
      var fd := Least(v.seen[p], minfd);
      (Show(v, p, fd, v.seen[p][oldfd].(cloexec := cloexec)), Fd(fd))
  }

  function ViewFork(v: View, p: nat, q: nat): (View, Code)
    requires p < |v.seen| && q < |v.seen|
  {
    (v.(seen := v.seen[q := v.seen[p]]), Fd(0))
  }

  ghost function ViewCloseFrom(v: View, p: nat, fd: nat): View
    requires p < |v.seen| && fd <= |v.seen[p]|
    decreases |v.seen[p]| - fd
  {
    if fd == |v.seen[p]| then v else ViewCloseFrom(ViewClose(v, p, fd).0, p, fd + 1)
  }

  ghost predicate Empty(v: View, q: nat) {
    q < |v.seen| && forall fd :: 0 <= fd < |v.seen[q]| ==> v.seen[q][fd] == Nobody
  }

  ghost function ViewStep(v: View, c: Call): View {
    if c.p >= |v.seen| then v
    else match c
      case OpenCall(p, known, d, x) => ViewOpen(v, p, known, DataOf(d).(rw := false), x).0
      case CloseCall(p, fd) => ViewClose(v, p, fd).0
      case DupToCall(p, o, n, x) => ViewDupTo(v, p, o, n, x).0
      case DupMinCall(p, o, m, x) => ViewDupMin(v, p, o, m, x).0
      case ForkCall(p, q) => if Empty(v, q) then ViewFork(v, p, q).0 else v
      case CloseAllCall(p) => ViewCloseFrom(v, p, 0)
  }

  // ---- how the tables show it ----------------------------------------------------------------------

  function DataOf(o: Ofd): Data { Data(o.kind, o.rw, o.nonblock, o.accmode, o.backing, o.offset) }

  function Look(s: State, e: Entry): Seen
    requires |s.ids| == |s.ofds|
  {
    if 0 < e.ofd <= |s.ofds| then Seen(s.ids[e.ofd - 1], e.cloexec, DataOf(s.ofds[e.ofd - 1])) else Nobody
  }

  function RowView(s: State, row: seq<Entry>): (r: seq<Seen>)
    requires |s.ids| == |s.ofds|
    ensures |r| == |row| && forall fd :: 0 <= fd < |row| ==> r[fd] == Look(s, row[fd])
  {
    seq(|row|, fd requires 0 <= fd < |row| => Look(s, row[fd]))
  }

  function ViewOf(s: State): (v: View)
    requires |s.ids| == |s.ofds|
    ensures |v.seen| == |s.tables| && v.issued == s.issued && v.closed == s.closed
    ensures forall p :: 0 <= p < |s.tables| ==> v.seen[p] == RowView(s, s.tables[p])
  {
    View(seq(|s.tables|, p requires 0 <= p < |s.tables| => RowView(s, s.tables[p])), s.issued, s.closed)
  }

  /** A descriptor that is set shows a live description, and two that show one serial number name one
      description. */
  lemma EntryLive(s: State, p: nat, fd: nat)
    requires Inv(s) && Table(s, p) && fd < |s.tables[p]| && s.tables[p][fd].ofd != 0
    ensures 0 < s.tables[p][fd].ofd <= |s.ofds| && Live(s, s.tables[p][fd].ofd - 1)
  {
    FoundIff(s, p, fd);
  }

  lemma NamesIff(s: State, i: nat)
    requires Inv(s) && Live(s, i)
    ensures Names(ViewOf(s).seen, s.ids[i])
    ensures forall p, fd :: 0 <= p < |s.tables| && 0 <= fd < |s.tables[p]| ==>
        (ViewOf(s).seen[p][fd].Seen? && ViewOf(s).seen[p][fd].id == s.ids[i] <==> s.tables[p][fd].ofd == i + 1)
  {
    hide CountAll, Size, CountedBut;
    var v := ViewOf(s);
    forall p, fd | 0 <= p < |s.tables| && 0 <= fd < |s.tables[p]|
      ensures v.seen[p][fd].Seen? && v.seen[p][fd].id == s.ids[i] <==> s.tables[p][fd].ofd == i + 1
    {
      if s.tables[p][fd].ofd != 0 { EntryLive(s, p, fd); }
    }
    CountIs(s, i);
    var p, fd := SomeName(s.tables, i + 1);
    assert v.seen[p][fd].Seen? && v.seen[p][fd].id == s.ids[i];
  }

  lemma CountIs(s: State, i: nat)
    requires CountedBut(s, -1, 0) && i < |s.ofds|
    ensures s.ofds[i].refs == CountAll(s.tables, i + 1)
  {
  }

  lemma {:induction false} SomeInRow(row: seq<Entry>, id: nat) returns (fd: nat)
    requires CountRow(row, id) > 0
    ensures fd < |row| && row[fd].ofd == id
  {
    fd := |row| - 1;
    if row[fd].ofd != id { fd := SomeInRow(row[..fd], id); }
  }

  /** A description that is counted is named by some descriptor. */
  lemma {:induction false} SomeName(tables: seq<seq<Entry>>, id: nat) returns (p: nat, fd: nat)
    requires CountAll(tables, id) > 0
    ensures p < |tables| && fd < |tables[p]| && tables[p][fd].ofd == id
  {
    p := |tables| - 1;
    if CountRow(tables[p], id) > 0 { fd := SomeInRow(tables[p], id); } else { p, fd := SomeName(tables[..p], id); }
  }

  // ---- one changed descriptor ------------------------------------------------------------------------

  /** Descriptions live before and after keep their serial number and data. */
  ghost predicate SameData(s: State, t: State) {
    && |s.ids| == |s.ofds| == |t.ofds| == |t.ids|
    && forall i :: Live(s, i) && Live(t, i) ==> t.ids[i] == s.ids[i] && DataOf(t.ofds[i]) == DataOf(s.ofds[i])
  }

  lemma PutView(s: State, t: State, p: nat, fd: nat, e: Entry)
    requires Inv(s) && Inv(t) && Table(s, p) && fd < |s.tables[p]|
    requires t.tables == Put(s.tables, p, fd, e) && SameData(s, t)
    ensures ViewOf(t).seen == ViewOf(s).seen[p := ViewOf(s).seen[p][fd := Look(t, e)]]
  {
    hide CountAll, Size, CountedBut, History;
    var a, b := ViewOf(s).seen, ViewOf(t).seen;
    forall q, k | 0 <= q < |s.tables| && 0 <= k < |s.tables[q]| && !(q == p && k == fd) ensures b[q][k] == a[q][k] {
      assert t.tables[q][k] == s.tables[q][k];
      if s.tables[q][k].ofd != 0 {
        EntryLive(s, q, k);
        EntryLive(t, q, k);
      }
    }
    forall q | 0 <= q < |s.tables| && q != p ensures b[q] == a[q] { assert |b[q]| == |a[q]|; }
    assert b[p] == a[p][fd := Look(t, e)];
  }

  /** A description is named in the view exactly as long as it is live. */
  lemma NamesLive(s: State, t: State, k: nat)
    requires Inv(s) && Inv(t) && Live(s, k) && SameData(s, t) && forall i :: Live(t, i) ==> Live(s, i)
    ensures Names(ViewOf(t).seen, s.ids[k]) <==> Live(t, k)
  {
    hide CountAll, Size, CountedBut;
    var b := ViewOf(t).seen;
    if Live(t, k) {
      NamesIff(t, k);
    } else if Names(b, s.ids[k]) {
      var q, fd :| 0 <= q < |b| && 0 <= fd < |b[q]| && b[q][fd].Seen? && b[q][fd].id == s.ids[k];
      EntryLive(t, q, fd);
      assert false;
    }
  }

  /** A name replaced: the view changes in that place alone, and the hook runs for a last name. */
  lemma ShowView(s: State, t: State, p: nat, fd: nat, e: Entry)
    requires Inv(s) && Inv(t) && Table(s, p) && fd < |s.tables[p]| && s.tables[p][fd].ofd != 0
    requires t.tables == Put(s.tables, p, fd, e) && SameData(s, t) && t.issued == s.issued
    requires forall i :: Live(t, i) ==> Live(s, i)
    requires 0 < s.tables[p][fd].ofd <= |s.ids|
    requires var k := s.tables[p][fd].ofd - 1;
             t.closed == if Live(t, k) then s.closed else s.closed + [s.ids[k]]
    ensures ViewOf(t) == Show(ViewOf(s), p, fd, Look(t, e))
  {
    hide Inv, Names, Look;
    EntryLive(s, p, fd);
    PutView(s, t, p, fd, e);
    NamesLive(s, t, s.tables[p][fd].ofd - 1);
    LookAt(s, p, fd);
  }

  lemma LookAt(s: State, p: nat, fd: nat)
    requires |s.ids| == |s.ofds| && Table(s, p) && fd < |s.tables[p]| && 0 < s.tables[p][fd].ofd <= |s.ofds|
    ensures ViewOf(s).seen[p][fd].Seen? && ViewOf(s).seen[p][fd].id == s.ids[s.tables[p][fd].ofd - 1]
  {
  }

  /** A name set where there was none. */
  lemma AddView(s: State, t: State, p: nat, fd: nat, e: Entry)
    requires Inv(s) && Inv(t) && Table(s, p) && fd < |s.tables[p]| && s.tables[p][fd].ofd == 0
    requires t.tables == Put(s.tables, p, fd, e) && SameData(s, t) && t.closed == s.closed
    ensures ViewOf(t) == Show(ViewOf(s), p, fd, Look(t, e)).(issued := t.issued)
  {
    hide Inv, Names;
    PutView(s, t, p, fd, e);
    assert ViewOf(s).seen[p][fd] == Nobody;
  }

  lemma OpenIff(s: State, p: nat, fd: int)
    requires Inv(s) && Table(s, p)
    ensures IsOpen(ViewOf(s), p, fd) <==> Found(s, p, fd)
    ensures Found(s, p, fd) ==> ViewOf(s).seen[p][fd] == Look(s, s.tables[p][fd])
  {
    FoundIff(s, p, fd);
  }

  lemma {:induction false} LeastIs(s: State, p: nat, fd: nat)
    requires Inv(s) && Table(s, p) && fd <= |s.tables[p]|
    ensures Least(ViewOf(s).seen[p], fd) == FirstUnused(s.tables[p], fd)
  {
    var k, u := Least(ViewOf(s).seen[p], fd), FirstUnused(s.tables[p], fd);
    if k < u { OpenIff(s, p, k); }
    if u < k { OpenIff(s, p, u); }
  }

  // ---- each call --------------------------------------------------------------------------------------

  lemma CloseView(s: State, p: nat, fd: int)
    requires Inv(s) && Table(s, p)
    ensures var (t, code) := Close(s, p, fd); |t.ids| == |t.ofds| && (ViewOf(t), code) == ViewClose(ViewOf(s), p, fd)
  {
    hide Show, Names, History, CountAll, Size, CountedBut;
    CloseKeeps(s, p, fd);
    OpenIff(s, p, fd);
    if Found(s, p, fd) { ShowView(s, Close(s, p, fd).0, p, fd, NONE); }
  }

  lemma OpenView(s: State, p: nat, known: bool, d: Ofd, cloexec: bool)
    requires Inv(s) && Table(s, p)
    ensures var (t, code) := Open(s, p, known, d, cloexec);
            |t.ids| == |t.ofds| && (ViewOf(t), code) == ViewOpen(ViewOf(s), p, known, DataOf(d).(rw := false), cloexec)
  {
    hide Show, Names, History, CountAll, Size, CountedBut;
    OpenKeeps(s, p, known, d, cloexec);
    OpenFailsIff(s, p, known, d, cloexec);
    LeastIs(s, p, 0);
    var (t, code) := Open(s, p, known, d, cloexec);
    if code != EMFILE {
      AddView(s, t, p, FirstUnused(s.tables[p], 0), t.tables[p][FirstUnused(s.tables[p], 0)]);
    }
  }

  lemma DupMinView(s: State, p: nat, oldfd: int, minfd: int, cloexec: bool)
    requires Inv(s) && Table(s, p)
    ensures var (t, code) := DupMin(s, p, oldfd, minfd, cloexec);
            |t.ids| == |t.ofds| && (ViewOf(t), code) == ViewDupMin(ViewOf(s), p, oldfd, minfd, cloexec)
  {
    hide Show, Names, History, CountAll, Size, CountedBut;
    DupMinKeeps(s, p, oldfd, minfd, cloexec);
    OpenIff(s, p, oldfd);
    if Found(s, p, oldfd) && 0 <= minfd < |s.tables[p]| {
      LeastIs(s, p, minfd);
      CountsBounded(s, Index(s, p, oldfd));
      var fd := FirstUnused(s.tables[p], minfd);
      if fd < |s.tables[p]| {
        var t := DupMin(s, p, oldfd, minfd, cloexec).0;
        var e := Entry(s.tables[p][oldfd].ofd, cloexec);
        assert s.tables[p][fd].ofd == 0;
        assert Look(t, e) == ViewOf(s).seen[p][oldfd].(cloexec := cloexec);
        AddView(s, t, p, fd, e);
        ShowKeepsIssued(ViewOf(s), p, fd, Look(t, e));
      }
    }
  }

  /** The count is full exactly when all the descriptors there could be name the description. */
  lemma CrowdedIff(s: State, p: nat, oldfd: int)
    requires Inv(s) && Table(s, p) && Found(s, p, oldfd)
    ensures s.ofds[Index(s, p, oldfd)].refs == FULL <==> Crowded(ViewOf(s), s.ids[Index(s, p, oldfd)])
  {
    hide CountAll, Size;
    var i := Index(s, p, oldfd);
    CountsBounded(s, i);
    NamesIff(s, i);
    SizeIs(s.tables, |s.tables[0]|);
    AllMost(s.tables, i + 1);
    if Crowded(ViewOf(s), s.ids[i]) { AllNamed(s.tables, i + 1); }
  }

  lemma {:induction false} RowNamed(row: seq<Entry>, id: nat)
    requires forall fd :: 0 <= fd < |row| ==> row[fd].ofd == id
    ensures CountRow(row, id) == |row|
  {
    if row != [] { RowNamed(row[..|row| - 1], id); }
  }

  lemma {:induction false} AllNamed(tables: seq<seq<Entry>>, id: nat)
    requires forall p, fd :: 0 <= p < |tables| && 0 <= fd < |tables[p]| ==> tables[p][fd].ofd == id
    ensures CountAll(tables, id) == Size(tables)
  {
    if tables != [] {
      AllNamed(tables[..|tables| - 1], id);
      RowNamed(tables[|tables| - 1], id);
    }
  }

  lemma PutTwice(tables: seq<seq<Entry>>, p: nat, fd: nat, x: Entry, e: Entry)
    requires p < |tables| && fd < |tables[p]|
    ensures Put(Put(tables, p, fd, x), p, fd, e) == Put(tables, p, fd, e)
  {
    assert tables[p][fd := x][fd := e] == tables[p][fd := e];
    var a, b := Put(Put(tables, p, fd, x), p, fd, e), Put(tables, p, fd, e);
    assert forall q :: 0 <= q < |tables| ==> a[q] == b[q];
  }

  /** What naming newfd after oldfd does to the descriptions and the history. */
  lemma DupToState(s: State, p: nat, oldfd: int, newfd: int, cloexec: bool)
    requires Inv(s) && Table(s, p) && Found(s, p, oldfd) && 0 <= newfd < |s.tables[p]| && oldfd != newfd
    requires s.ofds[Index(s, p, oldfd)].refs != FULL
    ensures var t := DupTo(s, p, oldfd, newfd, cloexec).0;
            var n := s.tables[p][newfd].ofd;
            && t.tables == Put(s.tables, p, newfd, Entry(s.tables[p][oldfd].ofd, cloexec)) && t.issued == s.issued
            && SameData(s, t) && (forall i :: Live(t, i) ==> Live(s, i)) && Live(t, Index(s, p, oldfd))
            && (n == 0 ==> t.closed == s.closed)
            && (0 < n <= |s.ids| ==> t.closed == if Live(t, n - 1) then s.closed else s.closed + [s.ids[n - 1]])
  {
    hide CountAll, Size, CountedBut, History;
    FoundIff(s, p, newfd);
    var u := Retained(s, Index(s, p, oldfd));
    var t := DupTo(s, p, oldfd, newfd, cloexec).0;
    assert forall i :: Live(u, i) <==> Live(s, i);
    if s.tables[p][newfd].ofd == 0 {
      assert t.ofds == u.ofds;
    } else {
      var n := s.tables[p][newfd].ofd - 1;
      assert Found(u, p, newfd) && Index(u, p, newfd) == n;
      PutTwice(s.tables, p, newfd, NONE, Entry(s.tables[p][oldfd].ofd, cloexec));
      assert t.ofds == Released(u, n).ofds && t.closed == Released(u, n).closed;
    }
  }

  lemma DupToView(s: State, p: nat, oldfd: int, newfd: int, cloexec: bool)
    requires Inv(s) && Table(s, p)
    ensures var (t, code) := DupTo(s, p, oldfd, newfd, cloexec);
            |t.ids| == |t.ofds| && (ViewOf(t), code) == ViewDupTo(ViewOf(s), p, oldfd, newfd, cloexec)
  {
    hide Show, Names, History, CountAll, Size, CountedBut, Crowded;
    DupToKeeps(s, p, oldfd, newfd, cloexec);
    OpenIff(s, p, oldfd);
    if Found(s, p, oldfd) && 0 <= newfd < |s.tables[p]| && oldfd != newfd {
      CrowdedIff(s, p, oldfd);
      if s.ofds[Index(s, p, oldfd)].refs != FULL {
        DupToState(s, p, oldfd, newfd, cloexec);
        NewName(s, p, oldfd, newfd, cloexec);
      }
    }
  }

  lemma NewName(s: State, p: nat, oldfd: int, newfd: int, cloexec: bool)
    requires Inv(s) && Table(s, p) && Found(s, p, oldfd) && 0 <= newfd < |s.tables[p]| && oldfd != newfd
    requires s.ofds[Index(s, p, oldfd)].refs != FULL
    ensures var t := DupTo(s, p, oldfd, newfd, cloexec).0;
            && |t.ids| == |t.ofds|
            && ViewOf(t) == Show(ViewOf(s), p, newfd, ViewOf(s).seen[p][oldfd].(cloexec := cloexec))
  {
    hide DupTo, Show, Names, History, CountAll, Size, CountedBut;
    DupToKeeps(s, p, oldfd, newfd, cloexec);
    DupToState(s, p, oldfd, newfd, cloexec);
    OpenIff(s, p, oldfd);
    var t, e := DupTo(s, p, oldfd, newfd, cloexec).0, Entry(s.tables[p][oldfd].ofd, cloexec);
    assert Look(t, e) == ViewOf(s).seen[p][oldfd].(cloexec := cloexec);
    if s.tables[p][newfd].ofd == 0 {
      AddView(s, t, p, newfd, e);
      ShowKeepsIssued(ViewOf(s), p, newfd, Look(t, e));
    } else {
      EntryLive(s, p, newfd);
      ShowView(s, t, p, newfd, e);
    }
  }

  lemma ShowKeepsIssued(v: View, p: nat, fd: nat, x: Seen)
    requires p < |v.seen| && fd < |v.seen[p]|
    ensures Show(v, p, fd, x).issued == v.issued
  {
  }

  lemma ForkView(s: State, p: nat, q: nat)
    requires Inv(s) && Table(s, p) && Unused(s, q)
    ensures var (t, code) := Fork(s, p, q);
            |t.ids| == |t.ofds| && (ViewOf(t), code) == ViewFork(ViewOf(s), p, q)
  {
    hide Shared, History, CountAll, Size, CountedBut;
    ForkKeeps(s, p, q);
    ForkCopies(s, p, q);
    var t := Fork(s, p, q).0;
    assert forall e :: Look(t, e) == Look(s, e);
    forall k | 0 <= k < |s.tables| ensures RowView(t, s.tables[k]) == RowView(s, s.tables[k]) {}
    assert ViewOf(t).seen == ViewOf(s).seen[q := ViewOf(s).seen[p]];
  }

  lemma {:induction false} CloseFromView(s: State, p: nat, fd: nat)
    requires Inv(s) && Table(s, p) && fd <= |s.tables[p]|
    ensures var t := CloseFrom(s, p, fd); |t.ids| == |t.ofds| && ViewOf(t) == ViewCloseFrom(ViewOf(s), p, fd)
    decreases |s.tables[p]| - fd
  {
    hide Close, ViewClose, CountedBut, InRange, Size;
    if fd < |s.tables[p]| {
      CloseKeeps(s, p, fd);
      CloseRow(s, p, fd);
      CloseView(s, p, fd);
      CloseFromView(Close(s, p, fd).0, p, fd + 1);
    }
  }

  // ---- every run -----------------------------------------------------------------------------------------

  lemma EmptyIff(s: State, q: nat)
    requires Inv(s)
    ensures Empty(ViewOf(s), q) <==> Unused(s, q)
  {
    if q < |s.tables| {
      assert forall fd :: 0 <= fd < |s.tables[q]| ==> (ViewOf(s).seen[q][fd] == Nobody <==> s.tables[q][fd].ofd == 0);
    }
  }

  lemma IdsMatch(s: State)
    requires Inv(s)
    ensures |s.ids| == |s.ofds|
  {
  }

  /** Every call does to what processes see what the machine without counts does. */
  lemma StepView(s: State, c: Call)
    requires Inv(s)
    ensures var t := Step(s, c); |t.ids| == |t.ofds| && ViewOf(t) == ViewStep(ViewOf(s), c)
  {
    IdsMatch(s);
    hide Inv, Open, Close, DupTo, DupMin, Fork, ViewOpen, ViewClose, ViewDupTo, ViewDupMin, ViewFork, Unused, Empty;
    if Table(s, c.p) {
      match c {
        case OpenCall(p, known, d, x) => OpenView(s, p, known, d, x);
        case CloseCall(p, fd) => CloseView(s, p, fd);
        case DupToCall(p, o, n, x) => DupToView(s, p, o, n, x);
        case DupMinCall(p, o, m, x) => DupMinView(s, p, o, m, x);
        case ForkCall(p, q) => EmptyIff(s, q); if Unused(s, q) { ForkView(s, p, q); }
        case CloseAllCall(p) => CloseFromView(s, p, 0);
      }
    }
  }

  ghost function ViewRun(v: View, cs: seq<Call>): View
    decreases |cs|
  {
    if cs == [] then v else ViewRun(ViewStep(v, cs[0]), cs[1..])
  }

  /** Over every sequence of calls the tables, descriptions and counts show exactly what the machine
      without counts shows: which description each descriptor names, its data, and the close hooks
      run so far, in order. */
  lemma {:induction false} RunView(s: State, cs: seq<Call>)
    requires Inv(s)
    ensures var t := Run(s, cs); |t.ids| == |t.ofds| && ViewOf(t) == ViewRun(ViewOf(s), cs)
    decreases |cs|
  {
    hide CountedBut, InRange, Size, Step, ViewStep;
    if cs != [] {
      StepKeeps(s, cs[0]);
      StepView(s, cs[0]);
      RunView(Step(s, cs[0]), cs[1..]);
    }
  }
}
