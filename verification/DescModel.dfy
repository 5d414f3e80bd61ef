/** Descriptor tables and the open-file descriptions they name, as values: every call is a step,
    and each description's reference count is compared with a count taken from scratch. */
module DescModel {

  const FULL: nat := 0xFFFF

  /** A descriptor: the description's number plus one, or zero. */
  datatype Entry = Entry(ofd: nat, cloexec: bool)
  const NONE := Entry(0, false)

  datatype Ofd = Ofd(refs: nat, kind: nat, rw: bool, nonblock: bool, accmode: nat, backing: int, offset: nat)
  const FREE := Ofd(0, 0, false, false, 0, 0, 0)

  /** The tables and descriptions, and a history: the serial number of each live description, how
      many were ever opened, and the serial numbers whose close hook ran, in order. */
  datatype State = State(tables: seq<seq<Entry>>, ofds: seq<Ofd>, ids: seq<nat>, issued: nat, closed: seq<nat>)

  datatype Code = Fd(fd: nat) | EBADF | EMFILE | ENOMEM | EAGAIN

  // ---- counting ------------------------------------------------------------------------------

  function Is(e: Entry, id: nat): nat { if e.ofd == id then 1 else 0 }

  function CountRow(row: seq<Entry>, id: nat): nat {
    if row == [] then 0 else CountRow(row[..|row| - 1], id) + Is(row[|row| - 1], id)
  }

  /** How many descriptors of all tables name id. */
  function CountAll(tables: seq<seq<Entry>>, id: nat): nat {
    if tables == [] then 0 else CountAll(tables[..|tables| - 1], id) + CountRow(tables[|tables| - 1], id)
  }

  function Size(tables: seq<seq<Entry>>): nat {
    if tables == [] then 0 else Size(tables[..|tables| - 1]) + |tables[|tables| - 1]|
  }

  lemma {:induction false} PutRow(row: seq<Entry>, fd: nat, e: Entry, id: nat)
    requires fd < |row|
    ensures CountRow(row[fd := e], id) == CountRow(row, id) - Is(row[fd], id) + Is(e, id)
  {
    var n := |row| - 1;
    if fd == n {
      assert row[fd := e][..n] == row[..n];
    } else {
      assert row[fd := e][..n] == row[..n][fd := e];
      PutRow(row[..n], fd, e, id);
    }
  }

  lemma {:induction false} PutTable(tables: seq<seq<Entry>>, p: nat, row: seq<Entry>, id: nat)
    requires p < |tables|
    ensures CountAll(tables[p := row], id) == CountAll(tables, id) - CountRow(tables[p], id) + CountRow(row, id)
  {
    var n := |tables| - 1;
    if p == n {
      assert tables[p := row][..n] == tables[..n];
    } else {
      assert tables[p := row][..n] == tables[..n][p := row];
      PutTable(tables[..n], p, row, id);
    }
  }

  lemma {:induction false} SizePut(tables: seq<seq<Entry>>, p: nat, row: seq<Entry>)
    requires p < |tables| && |row| == |tables[p]|
    ensures Size(tables[p := row]) == Size(tables)
  {
    var n := |tables| - 1;
    if p == n {
      assert tables[p := row][..n] == tables[..n];
    } else {
      assert tables[p := row][..n] == tables[..n][p := row];
      SizePut(tables[..n], p, row);
    }
  }

  lemma {:induction false} SizeIs(tables: seq<seq<Entry>>, m: nat)
    requires forall i :: 0 <= i < |tables| ==> |tables[i]| == m
    ensures Size(tables) == |tables| * m
  {
    if tables != [] { SizeIs(tables[..|tables| - 1], m); }
  }

  function Put(tables: seq<seq<Entry>>, p: nat, fd: nat, e: Entry): (r: seq<seq<Entry>>)
    requires p < |tables| && fd < |tables[p]|
    ensures |r| == |tables| && forall i :: 0 <= i < |r| ==> |r[i]| == |tables[i]|
  {
    tables[p := tables[p][fd := e]]
  }

  lemma PutCount(tables: seq<seq<Entry>>, p: nat, fd: nat, e: Entry, id: nat)
    requires p < |tables| && fd < |tables[p]|
    ensures CountAll(Put(tables, p, fd, e), id) == CountAll(tables, id) - Is(tables[p][fd], id) + Is(e, id)
    ensures Size(Put(tables, p, fd, e)) == Size(tables)
  {
    PutRow(tables[p], fd, e, id);
    PutTable(tables, p, tables[p][fd := e], id);
    SizePut(tables, p, tables[p][fd := e]);
  }

  lemma {:induction false} RowCounts(row: seq<Entry>, fd: nat, id: nat)
    requires fd < |row|
    ensures CountRow(row, id) >= Is(row[fd], id)
    ensures CountRow(row, id) <= |row| - (1 - Is(row[fd], id))
  {
    var n := |row| - 1;
    RowMost(row[..n], id);
    if fd < n { RowCounts(row[..n], fd, id); }
  }

  lemma {:induction false} RowMost(row: seq<Entry>, id: nat)
    ensures CountRow(row, id) <= |row|
  {
    if row != [] { RowMost(row[..|row| - 1], id); }
  }

  lemma {:induction false} AllMost(tables: seq<seq<Entry>>, id: nat)
    ensures CountAll(tables, id) <= Size(tables)
  {
    if tables != [] {
      AllMost(tables[..|tables| - 1], id);
      RowMost(tables[|tables| - 1], id);
    }
  }

  /** One descriptor that names id, or does not, bounds the count from below, or from above. */
  lemma {:induction false} AllCounts(tables: seq<seq<Entry>>, p: nat, fd: nat, id: nat)
    requires p < |tables| && fd < |tables[p]|
    ensures CountAll(tables, id) >= Is(tables[p][fd], id)
    ensures CountAll(tables, id) <= Size(tables) - (1 - Is(tables[p][fd], id))
  {
    var n := |tables| - 1;
    AllMost(tables[..n], id);
    RowMost(tables[n], id);
    if p == n { RowCounts(tables[p], fd, id); } else { AllCounts(tables[..n], p, fd, id); }
  }

  /** Descriptors that name any of the first k descriptions. */
  function Named(tables: seq<seq<Entry>>, k: nat): nat {
    if k == 0 then 0 else Named(tables, k - 1) + CountAll(tables, k)
  }

  /** ... counting each descriptor of one row once at most. */
  function NamedIn(row: seq<Entry>, k: nat): nat {
    if k == 0 then 0 else NamedIn(row, k - 1) + CountRow(row, k)
  }

  lemma {:induction false} NamedSplit(rest: seq<seq<Entry>>, row: seq<Entry>, k: nat)
    ensures Named(rest + [row], k) == Named(rest, k) + NamedIn(row, k)
  {
    if k > 0 {
      NamedSplit(rest, row, k - 1);
      assert (rest + [row])[..|rest|] == rest;
    }
  }

  lemma {:induction false} NamedOne(row: seq<Entry>, k: nat)
    ensures NamedIn(row, k) <= |row|
    ensures forall fd :: 0 <= fd < |row| && row[fd].ofd == 0 ==> NamedIn(row, k) < |row|
  {
    if row == [] {
      NamedNil(k);
    } else {
      var n := |row| - 1;
      NamedOne(row[..n], k);
      NamedLast(row, k);
      forall fd | 0 <= fd < |row| && row[fd].ofd == 0 ensures NamedIn(row, k) < |row| {
        if fd < n { assert row[..n][fd].ofd == 0; }
      }
    }
  }

  lemma {:induction false} NamedNil(k: nat)
    ensures NamedIn([], k) == 0
  {
    if k > 0 { NamedNil(k - 1); }
  }

  lemma {:induction false} NamedLast(row: seq<Entry>, k: nat)
    requires row != []
    ensures NamedIn(row, k) == NamedIn(row[..|row| - 1], k) + if 1 <= row[|row| - 1].ofd <= k then 1 else 0
  {
    if k > 0 { NamedLast(row, k - 1); }
  }

  lemma {:induction false} NamedAll(tables: seq<seq<Entry>>, k: nat)
    ensures Named(tables, k) <= Size(tables)
    ensures forall p, fd :: 0 <= p < |tables| && 0 <= fd < |tables[p]| && tables[p][fd].ofd == 0 ==>
        Named(tables, k) < Size(tables)
  {
    if tables == [] {
      NamedEmpty(k);
    } else {
      var n := |tables| - 1;
      assert tables == tables[..n] + [tables[n]];
      NamedSplit(tables[..n], tables[n], k);
      NamedAll(tables[..n], k);
      NamedOne(tables[n], k);
      forall p, fd | 0 <= p < |tables| && 0 <= fd < |tables[p]| && tables[p][fd].ofd == 0
          ensures Named(tables, k) < Size(tables) {
        if p < n { assert tables[..n][p][fd].ofd == 0; }
      }
    }
  }

  lemma {:induction false} NamedEmpty(k: nat)
    ensures Named([], k) == 0
  {
    if k > 0 { NamedEmpty(k - 1); }
  }

  // ---- the calls -----------------------------------------------------------------------------

  predicate Shape(s: State) {
    && |s.ids| == |s.ofds| == Size(s.tables) <= FULL
    && (forall p, q :: 0 <= p < |s.tables| && 0 <= q < |s.tables| ==> |s.tables[p]| == |s.tables[q]|)
  }

  predicate Table(s: State, p: nat) { p < |s.tables| }

  /** fd_lookup: the description's index, or none. */
  predicate Found(s: State, p: nat, fd: int)
    requires Table(s, p)
  {
    && 0 <= fd < |s.tables[p]| && 0 < s.tables[p][fd].ofd <= |s.ofds|
    && s.ofds[s.tables[p][fd].ofd - 1].refs != 0
  }

  function Index(s: State, p: nat, fd: int): (i: nat)
    requires Table(s, p) && Found(s, p, fd)
    ensures i < |s.ofds|
  {
    s.tables[p][fd].ofd - 1
  }

  /** Drop one reference to description i; the last one runs the close hook. */
  function Released(s: State, i: nat): State
    requires i < |s.ofds| == |s.ids| && s.ofds[i].refs > 0
  {
    if s.ofds[i].refs == 1 then s.(ofds := s.ofds[i := FREE], closed := s.closed + [s.ids[i]])
    else s.(ofds := s.ofds[i := s.ofds[i].(refs := s.ofds[i].refs - 1)])
  }

  function Close(s: State, p: nat, fd: int): (r: (State, Code))
    requires Table(s, p) && |s.ids| == |s.ofds|
  {
    if !Found(s, p, fd) then (s, EBADF)
    else (Released(s.(tables := Put(s.tables, p, fd, NONE)), Index(s, p, fd)), Fd(0))
  }

  /** First description without references. */
  function FirstFree(ofds: seq<Ofd>, i: nat): (k: nat)
    requires i <= |ofds|
    ensures i <= k <= |ofds| && (k < |ofds| ==> ofds[k].refs == 0) && forall j :: i <= j < k ==> ofds[j].refs != 0
    decreases |ofds| - i
  {
    if i == |ofds| || ofds[i].refs == 0 then i else FirstFree(ofds, i + 1)
  }

  /** First unused descriptor from fd on. */
  function FirstUnused(row: seq<Entry>, fd: nat): (k: nat)
    requires fd <= |row|
    ensures fd <= k <= |row| && (k < |row| ==> row[k].ofd == 0) && forall j :: fd <= j < k ==> row[j].ofd != 0
    decreases |row| - fd
  {
    if fd == |row| || row[fd].ofd == 0 then fd else FirstUnused(row, fd + 1)
  }

  /** known: the kind has operations. The description's own fields come from the caller. */
  function Open(s: State, p: nat, known: bool, d: Ofd, cloexec: bool): (r: (State, Code))
    requires Table(s, p) && |s.ids| == |s.ofds|
  {
    var oi, fd := FirstFree(s.ofds, 0), FirstUnused(s.tables[p], 0);
    if !known || oi == |s.ofds| || fd == |s.tables[p]| then (s, EMFILE)
    else (s.(tables := Put(s.tables, p, fd, Entry(oi + 1, cloexec)), ofds := s.ofds[oi := d.(refs := 1, rw := false)],
             ids := s.ids[oi := s.issued], issued := s.issued + 1), Fd(fd))
  }

  function Retained(s: State, i: nat): State
    requires i < |s.ofds|
  {
    s.(ofds := s.ofds[i := s.ofds[i].(refs := s.ofds[i].refs + 1)])
  }

  function DupTo(s: State, p: nat, oldfd: int, newfd: int, cloexec: bool): (r: (State, Code))
    requires Table(s, p) && |s.ids| == |s.ofds|
  {
    if !Found(s, p, oldfd) || !(0 <= newfd < |s.tables[p]|) then (s, EBADF)
    else if oldfd == newfd then (s, Fd(newfd))
    else if s.ofds[Index(s, p, oldfd)].refs == FULL then (s, EMFILE)
    else
      var t := Retained(s, Index(s, p, oldfd));
      var u := if t.tables[p][newfd].ofd != 0 then Close(t, p, newfd).0 else t;
      (u.(tables := Put(u.tables, p, newfd, Entry(s.tables[p][oldfd].ofd, cloexec))), Fd(newfd))
  }

  function DupMin(s: State, p: nat, oldfd: int, minfd: int, cloexec: bool): (r: (State, Code))
    requires Table(s, p) && |s.ids| == |s.ofds|
  {
    if !Found(s, p, oldfd) then (s, EBADF)
    else if !(0 <= minfd < |s.tables[p]|) then (s, EMFILE)
    else
      var fd := FirstUnused(s.tables[p], minfd);
      if fd == |s.tables[p]| || s.ofds[Index(s, p, oldfd)].refs == FULL then (s, EMFILE)
      else
        var t := Retained(s, Index(s, p, oldfd));
        (t.(tables := Put(t.tables, p, fd, Entry(s.tables[p][oldfd].ofd, cloexec))), Fd(fd))
  }

  /** One more name for the description of a descriptor, if it has one, in 16 bits. */
  function Bump(ofds: seq<Ofd>, e: Entry): (r: seq<Ofd>)
    ensures |r| == |ofds|
  {
    if 0 < e.ofd <= |ofds| && ofds[e.ofd - 1].refs != 0
    then ofds[e.ofd - 1 := ofds[e.ofd - 1].(refs := (ofds[e.ofd - 1].refs + 1) % (FULL + 1))]
    else ofds
  }

  function Shared(ofds: seq<Ofd>, row: seq<Entry>): (r: seq<Ofd>)
    ensures |r| == |ofds|
  {
    if row == [] then ofds else Bump(Shared(ofds, row[..|row| - 1]), row[|row| - 1])
  }

  /** While the counts fit, every description with names gains one reference per name in the row. */
  lemma {:induction false} SharedCount(ofds: seq<Ofd>, row: seq<Entry>, i: nat)
    requires i < |ofds| && (ofds[i].refs == 0 || ofds[i].refs + CountRow(row, i + 1) <= FULL)
    ensures Shared(ofds, row)[i] ==
            if ofds[i].refs == 0 then ofds[i] else ofds[i].(refs := ofds[i].refs + CountRow(row, i + 1))
  {
    if row != [] { SharedCount(ofds, row[..|row| - 1], i); }
  }

  predicate AnyFull(s: State, p: nat)
    requires Table(s, p)
  {
    exists fd :: 0 <= fd < |s.tables[p]| && Found(s, p, fd) && s.ofds[Index(s, p, fd)].refs == FULL
  }

  predicate Unused(s: State, q: nat) {
    q < |s.tables| && forall fd :: 0 <= fd < |s.tables[q]| ==> s.tables[q][fd].ofd == 0
  }

  /** fork: table q, the unused one found, becomes a copy of table p. */
  function Fork(s: State, p: nat, q: nat): (r: (State, Code))
    requires Table(s, p) && Unused(s, q)
  {
    var t := s.(tables := s.tables[q := s.tables[p]]);
    if AnyFull(t, q) then (s, EAGAIN) else (t.(ofds := Shared(s.ofds, s.tables[p])), Fd(0))
  }

  /** Close descriptors fd, fd + 1, ... of the table. */
  function CloseFrom(s: State, p: nat, fd: nat): (t: State)
    requires Table(s, p) && |s.ids| == |s.ofds| && fd <= |s.tables[p]|
    decreases |s.tables[p]| - fd
  {
    if fd == |s.tables[p]| then s else CloseFrom(Close(s, p, fd).0, p, fd + 1)
  }

  // ---- the invariant -----------------------------------------------------------------------

  predicate InRange(s: State) {
    forall p, fd :: 0 <= p < |s.tables| && 0 <= fd < |s.tables[p]| ==> s.tables[p][fd].ofd <= |s.ofds|
  }

  /** Each count is the number of descriptors that name the description; d more for description k. */
  predicate CountedBut(s: State, k: int, d: int) {
    forall i :: 0 <= i < |s.ofds| ==> s.ofds[i].refs == CountAll(s.tables, i + 1) + if i == k then d else 0
  }

  predicate Live(s: State, i: int) { 0 <= i < |s.ofds| && s.ofds[i].refs > 0 }

  /** Serial numbers: each one issued is either that of one live description or was closed once. */
  ghost predicate History(s: State) {
    && |s.ids| == |s.ofds|
    && (forall i :: 0 <= i < |s.ofds| && s.ofds[i].refs == 0 ==> s.ofds[i] == FREE)
    && (forall i :: Live(s, i) ==> s.ids[i] < s.issued && s.ids[i] !in s.closed)
    && (forall i, j :: Live(s, i) && Live(s, j) && i != j ==> s.ids[i] != s.ids[j])
    && (forall a, b :: 0 <= a < b < |s.closed| ==> s.closed[a] != s.closed[b])
    && (forall a :: 0 <= a < |s.closed| ==> s.closed[a] < s.issued)
    && (forall id :: 0 <= id < s.issued && id !in s.closed ==> exists i :: Live(s, i) && s.ids[i] == id)
  }

  ghost predicate Inv(s: State) { Shape(s) && InRange(s) && CountedBut(s, -1, 0) && History(s) }

  /** In a counted state a descriptor is open exactly when its entry is set. */
  lemma FoundIff(s: State, p: nat, fd: int)
    requires Inv(s) && Table(s, p)
    ensures Found(s, p, fd) <==> 0 <= fd < |s.tables[p]| && s.tables[p][fd].ofd != 0
  {
    if 0 <= fd < |s.tables[p]| && s.tables[p][fd].ofd != 0 {
      AllCounts(s.tables, p, fd, s.tables[p][fd].ofd);
      assert s.ofds[s.tables[p][fd].ofd - 1].refs >= 1;
    }
  }

  lemma ReleasedHistory(s: State, i: nat)
    requires History(s) && Live(s, i)
    ensures History(Released(s, i))
  {
    var t := Released(s, i);
    assert forall j :: Live(t, j) ==> Live(s, j) && t.ids[j] == s.ids[j];
    forall id | 0 <= id < t.issued && id !in t.closed ensures exists j :: Live(t, j) && t.ids[j] == id {
      assert id !in s.closed;
      var j :| Live(s, j) && s.ids[j] == id;
      if s.ofds[i].refs == 1 { assert s.ids[i] in t.closed; }
      assert Live(t, j);
    }
  }

  /** A change that keeps who is live keeps the history. */
  lemma SameHistory(s: State, t: State)
    requires History(s) && |t.ofds| == |s.ofds| && t.ids == s.ids && t.issued == s.issued && t.closed == s.closed
    requires forall i :: 0 <= i < |s.ofds| ==>
        if s.ofds[i].refs == 0 then t.ofds[i] == s.ofds[i] else t.ofds[i].refs > 0
    ensures History(t)
  {
    assert forall i :: Live(t, i) <==> Live(s, i);
    forall id | 0 <= id < t.issued && id !in t.closed ensures exists j :: Live(t, j) && t.ids[j] == id {
      var j :| Live(s, j) && s.ids[j] == id;
      assert Live(t, j);
    }
  }

  lemma OpenHistory(s: State, k: nat, d: Ofd)
    requires History(s) && k < |s.ofds| && s.ofds[k].refs == 0 && d.refs == 1
    ensures History(s.(ofds := s.ofds[k := d], ids := s.ids[k := s.issued], issued := s.issued + 1))
  {
    var t := s.(ofds := s.ofds[k := d], ids := s.ids[k := s.issued], issued := s.issued + 1);
    assert forall i :: Live(t, i) ==> i == k || (Live(s, i) && t.ids[i] == s.ids[i]);
    forall id | 0 <= id < t.issued && id !in t.closed ensures exists j :: Live(t, j) && t.ids[j] == id {
      if id == s.issued {
        assert Live(t, k);
      } else {
        var j :| Live(s, j) && s.ids[j] == id;
        assert Live(t, j) && t.ids[j] == id;
      }
    }
  }

  lemma PutShape(s: State, p: nat, fd: nat, e: Entry)
    requires Shape(s) && InRange(s) && Table(s, p) && fd < |s.tables[p]| && e.ofd <= |s.ofds|
    ensures var t := s.(tables := Put(s.tables, p, fd, e)); Shape(t) && InRange(t)
  {
    PutCount(s.tables, p, fd, e, 0);
  }

  /** What replacing a descriptor does to every count. */
  lemma PutCounts(s: State, p: nat, fd: nat, e: Entry)
    requires Table(s, p) && fd < |s.tables[p]|
    ensures forall id :: 0 < id <= |s.ofds| ==>
              CountAll(Put(s.tables, p, fd, e), id) == CountAll(s.tables, id) - Is(s.tables[p][fd], id) + Is(e, id)
  {
    forall id | 0 < id <= |s.ofds|
      ensures CountAll(Put(s.tables, p, fd, e), id) == CountAll(s.tables, id) - Is(s.tables[p][fd], id) + Is(e, id)
    {
      PutCount(s.tables, p, fd, e, id);
    }
  }

  lemma CloseKeepsBut(s: State, p: nat, fd: int, k: int, d: int)
    requires Shape(s) && InRange(s) && CountedBut(s, k, d) && History(s) && Table(s, p) && Found(s, p, fd)
    ensures var t := Close(s, p, fd).0;
            Shape(t) && InRange(t) && CountedBut(t, k, d) && History(t) && t.tables == Put(s.tables, p, fd, NONE)
  {
    hide CountAll, History, Size;
    var i := Index(s, p, fd);
    var u := s.(tables := Put(s.tables, p, fd, NONE));
    PutShape(s, p, fd, NONE);
    PutCounts(s, p, fd, NONE);
    SameHistory(s, u);
    ReleasedHistory(u, i);
  }

  lemma CloseKeeps(s: State, p: nat, fd: int)
    requires Inv(s) && Table(s, p)
    ensures Inv(Close(s, p, fd).0)
  {
    hide History, CountedBut, Shape, InRange;
    if Found(s, p, fd) { CloseKeepsBut(s, p, fd, -1, 0); }
  }

  lemma OpenKeeps(s: State, p: nat, known: bool, d: Ofd, cloexec: bool)
    requires Inv(s) && Table(s, p)
    ensures Inv(Open(s, p, known, d, cloexec).0)
  {
    hide CountAll, History, Size;
    var oi, fd := FirstFree(s.ofds, 0), FirstUnused(s.tables[p], 0);
    if known && oi < |s.ofds| && fd < |s.tables[p]| {
      PutShape(s, p, fd, Entry(oi + 1, cloexec));
      PutCounts(s, p, fd, Entry(oi + 1, cloexec));
      var u := s.(tables := Put(s.tables, p, fd, Entry(oi + 1, cloexec)));
      SameHistory(s, u);
      OpenHistory(u, oi, d.(refs := 1, rw := false));
    }
  }

  lemma AddName(s: State, p: nat, fd: nat, k: nat, cloexec: bool)
    requires Shape(s) && InRange(s) && CountedBut(s, k, 1) && History(s) && Table(s, p)
    requires fd < |s.tables[p]| && s.tables[p][fd].ofd == 0 && k < |s.ofds|
    ensures Inv(s.(tables := Put(s.tables, p, fd, Entry(k + 1, cloexec))))
  {
    hide CountAll, History, Size;
    PutShape(s, p, fd, Entry(k + 1, cloexec));
    PutCounts(s, p, fd, Entry(k + 1, cloexec));
    SameHistory(s, s.(tables := Put(s.tables, p, fd, Entry(k + 1, cloexec))));
  }

  lemma RetainedBut(s: State, k: nat)
    requires Inv(s) && Live(s, k)
    ensures var t := Retained(s, k); Shape(t) && InRange(t) && CountedBut(t, k, 1) && History(t)
  {
    hide CountAll, History, Size;
    SameHistory(s, Retained(s, k));
  }

  /** dup onto an open descriptor: it is closed first. */
  lemma DupOver(s: State, p: nat, oldfd: int, newfd: int, cloexec: bool)
    requires Inv(s) && Table(s, p) && Found(s, p, oldfd) && Found(s, p, newfd)
    ensures var k := Index(s, p, oldfd);
            var t := Retained(s, k);
            && Found(t, p, newfd)
            && Inv(Close(t, p, newfd).0.(tables := Put(Close(t, p, newfd).0.tables, p, newfd, Entry(k + 1, cloexec))))
  {
    var k := Index(s, p, oldfd);
    RetainedBut(s, k);
    hide CountAll, History, Size, CountedBut, Shape, InRange;
    CloseKeepsBut(Retained(s, k), p, newfd, k, 1);
    AddName(Close(Retained(s, k), p, newfd).0, p, newfd, k, cloexec);
  }

  lemma DupToKeeps(s: State, p: nat, oldfd: int, newfd: int, cloexec: bool)
    requires Inv(s) && Table(s, p)
    ensures Inv(DupTo(s, p, oldfd, newfd, cloexec).0)
  {
    if Found(s, p, oldfd) && 0 <= newfd < |s.tables[p]| && oldfd != newfd && s.ofds[Index(s, p, oldfd)].refs != FULL {
      FoundIff(s, p, newfd);
      if s.tables[p][newfd].ofd != 0 {
        hide CountAll, History, Size, CountedBut, InRange, Close;
        DupOver(s, p, oldfd, newfd, cloexec);
      } else {
        hide CountAll, History, Size, CountedBut, InRange, Close;
        RetainedBut(s, Index(s, p, oldfd));
        AddName(Retained(s, Index(s, p, oldfd)), p, newfd, Index(s, p, oldfd), cloexec);
      }
    }
  }

  lemma DupMinKeeps(s: State, p: nat, oldfd: int, minfd: int, cloexec: bool)
    requires Inv(s) && Table(s, p)
    ensures Inv(DupMin(s, p, oldfd, minfd, cloexec).0)
  {
    if Found(s, p, oldfd) && 0 <= minfd < |s.tables[p]| {
      hide CountAll, History, Size, CountedBut, Shape, InRange;
      var fd := FirstUnused(s.tables[p], minfd);
      if fd < |s.tables[p]| && s.ofds[Index(s, p, oldfd)].refs != FULL {
        RetainedBut(s, Index(s, p, oldfd));
        AddName(Retained(s, Index(s, p, oldfd)), p, fd, Index(s, p, oldfd), cloexec);
      }
    }
  }

  // ---- fork ----------------------------------------------------------------------------------

  lemma {:induction false} NoneRow(row: seq<Entry>, id: nat)
    requires id > 0 && forall fd :: 0 <= fd < |row| ==> row[fd].ofd == 0
    ensures CountRow(row, id) == 0
  {
    if row != [] { NoneRow(row[..|row| - 1], id); }
  }

  lemma {:induction false} RowInAll(tables: seq<seq<Entry>>, p: nat, id: nat)
    requires p < |tables|
    ensures CountRow(tables[p], id) <= CountAll(tables, id)
  {
    if p < |tables| - 1 { RowInAll(tables[..|tables| - 1], p, id); }
  }

  /** Copying a table onto an unused one adds the row's names, and still fits. */
  lemma ForkCount(s: State, p: nat, q: nat, id: nat)
    requires Shape(s) && Table(s, p) && Unused(s, q) && id > 0
    ensures CountAll(s.tables[q := s.tables[p]], id) == CountAll(s.tables, id) + CountRow(s.tables[p], id) <= FULL
    ensures CountAll(s.tables, id) == 0 ==> CountRow(s.tables[p], id) == 0
  {
    hide CountAll, CountRow, Size;
    PutTable(s.tables, q, s.tables[p], id);
    SizePut(s.tables, q, s.tables[p]);
    NoneRow(s.tables[q], id);
    AllMost(s.tables[q := s.tables[p]], id);
    RowInAll(s.tables, p, id);
  }

  /** Every description named has room, so fork never fails for want of it. */
  lemma ForkHasRoom(s: State, p: nat, q: nat)
    requires Inv(s) && Table(s, p) && Unused(s, q)
    ensures !AnyFull(s.(tables := s.tables[q := s.tables[p]]), q)
  {
    hide CountAll, CountRow, Size, History;
    var t := s.(tables := s.tables[q := s.tables[p]]);
    forall fd | 0 <= fd < |t.tables[q]| && Found(t, q, fd) ensures t.ofds[Index(t, q, fd)].refs != FULL {
      var id := s.tables[p][fd].ofd;
      ForkCount(s, p, q, id);
      RowCounts(s.tables[p], fd, id);
    }
  }

  lemma ForkKeeps(s: State, p: nat, q: nat)
    requires Inv(s) && Table(s, p) && Unused(s, q)
    ensures Inv(Fork(s, p, q).0) && Fork(s, p, q).1 == Fd(0)
  {
    hide CountAll, CountRow, Size, History;
    ForkHasRoom(s, p, q);
    SizePut(s.tables, q, s.tables[p]);
    var t := Fork(s, p, q).0;
    forall i | 0 <= i < |s.ofds|
      ensures t.ofds[i].refs == CountAll(t.tables, i + 1)
      ensures if s.ofds[i].refs == 0 then t.ofds[i] == s.ofds[i] else t.ofds[i].refs > 0
    {
      ForkCount(s, p, q, i + 1);
      SharedCount(s.ofds, s.tables[p], i);
    }
    SameHistory(s, t);
  }

  /** fork changes everything or nothing: it is refused exactly when some description of the parent has
      no room for another reference, and then the state is as it was. */
  lemma ForkAllOrNothing(s: State, p: nat, q: nat)
    requires Table(s, p) && Unused(s, q)
    ensures var (t, code) := Fork(s, p, q);
            && (code == EAGAIN <==> exists fd :: Found(s, p, fd) && s.ofds[Index(s, p, fd)].refs == FULL)
            && (code == EAGAIN ==> t == s) && (code != EAGAIN ==> code == Fd(0))
  {
    var t := s.(tables := s.tables[q := s.tables[p]]);
    assert forall fd :: Found(t, q, fd) <==> Found(s, p, fd);
    if exists fd :: Found(s, p, fd) && s.ofds[Index(s, p, fd)].refs == FULL {
      var fd :| Found(s, p, fd) && s.ofds[Index(s, p, fd)].refs == FULL;
      assert Found(t, q, fd) && t.ofds[Index(t, q, fd)].refs == FULL;
    }
    if AnyFull(t, q) {
      var fd :| 0 <= fd < |t.tables[q]| && Found(t, q, fd) && t.ofds[Index(t, q, fd)].refs == FULL;
      assert Found(s, p, fd);
    }
  }

  /** A forked process has its parent's descriptors: the child's table is the parent's, every
      description gains one reference per name in it, and nothing else of any description or of any
      other table changes. */
  lemma ForkCopies(s: State, p: nat, q: nat)
    requires Inv(s) && Table(s, p) && Unused(s, q)
    ensures var t := Fork(s, p, q).0;
            && t.tables == s.tables[q := s.tables[p]] && |t.ofds| == |s.ofds|
            && t.ids == s.ids && t.issued == s.issued && t.closed == s.closed
            && (forall fd :: Found(t, q, fd) <==> Found(s, p, fd))
            && (forall fd :: Found(s, p, fd) ==> Index(t, q, fd) == Index(s, p, fd))
            && (forall i :: 0 <= i < |s.ofds| ==>
                  t.ofds[i] == s.ofds[i].(refs := s.ofds[i].refs + CountRow(s.tables[p], i + 1)))
  {
    hide CountAll, CountRow, Size, History;
    ForkHasRoom(s, p, q);
    forall i | 0 <= i < |s.ofds|
      ensures Fork(s, p, q).0.ofds[i] == s.ofds[i].(refs := s.ofds[i].refs + CountRow(s.tables[p], i + 1))
      ensures s.ofds[i].refs == 0 ==> CountRow(s.tables[p], i + 1) == 0
    {
      ForkCount(s, p, q, i + 1);
      SharedCount(s.ofds, s.tables[p], i);
    }
    forall fd ensures Found(Fork(s, p, q).0, q, fd) <==> Found(s, p, fd) {}
  }

  // ---- whole runs ----------------------------------------------------------------------------

  datatype Call =
    | OpenCall(p: nat, known: bool, d: Ofd, cloexec: bool)
    | CloseCall(p: nat, fd: int)
    | DupToCall(p: nat, oldfd: int, newfd: int, cloexec: bool)
    | DupMinCall(p: nat, oldfd: int, minfd: int, cloexec: bool)
    | ForkCall(p: nat, q: nat)
    | CloseAllCall(p: nat)

  /** A call on a table that does not exist, or a fork onto a table in use, is no call at all. */
  function Step(s: State, c: Call): State
    requires |s.ids| == |s.ofds|
  {
    if !Table(s, c.p) then s
    else match c
      case OpenCall(p, known, d, x) => Open(s, p, known, d, x).0
      case CloseCall(p, fd) => Close(s, p, fd).0
      case DupToCall(p, o, n, x) => DupTo(s, p, o, n, x).0
      case DupMinCall(p, o, m, x) => DupMin(s, p, o, m, x).0
      case ForkCall(p, q) => if Unused(s, q) then Fork(s, p, q).0 else s
      case CloseAllCall(p) => CloseFrom(s, p, 0)
  }

  /** Closing a whole table leaves it empty and every other table as it was. */
  lemma {:induction false} CloseFromEmpties(s: State, p: nat, fd: nat)
    requires Inv(s) && Table(s, p) && fd <= |s.tables[p]|
    ensures var t := CloseFrom(s, p, fd);
            && Inv(t) && |t.tables| == |s.tables| && |t.tables[p]| == |s.tables[p]|
            && (forall i :: fd <= i < |s.tables[p]| ==> t.tables[p][i].ofd == 0)
            && (forall i :: 0 <= i < fd ==> t.tables[p][i] == s.tables[p][i])
            && (forall q :: 0 <= q < |s.tables| && q != p ==> t.tables[q] == s.tables[q])
    decreases |s.tables[p]| - fd
  {
    if fd < |s.tables[p]| {
      hide Close, CountedBut, InRange, Size;
      CloseKeeps(s, p, fd);
      CloseRow(s, p, fd);
      CloseFromEmpties(Close(s, p, fd).0, p, fd + 1);
    }
  }

  lemma CloseRow(s: State, p: nat, fd: nat)
    requires Inv(s) && Table(s, p) && fd < |s.tables[p]|
    ensures var t := Close(s, p, fd).0;
            && |t.tables| == |s.tables| && |t.tables[p]| == |s.tables[p]| && t.tables[p][fd].ofd == 0
            && (forall i :: 0 <= i < |s.tables[p]| && i != fd ==> t.tables[p][i] == s.tables[p][i])
            && (forall q :: 0 <= q < |s.tables| && q != p ==> t.tables[q] == s.tables[q])
  {
    FoundIff(s, p, fd);
  }

  lemma StepKeeps(s: State, c: Call)
    requires Inv(s)
    ensures Inv(Step(s, c))
  {
    if Table(s, c.p) {
      hide Open, Close, DupTo, DupMin, Fork, History, CountedBut, InRange, Size;
      match c {
        case OpenCall(p, known, d, x) => OpenKeeps(s, p, known, d, x);
        case CloseCall(p, fd) => CloseKeeps(s, p, fd);
        case DupToCall(p, o, n, x) => DupToKeeps(s, p, o, n, x);
        case DupMinCall(p, o, m, x) => DupMinKeeps(s, p, o, m, x);
        case ForkCall(p, q) => if Unused(s, q) { ForkKeeps(s, p, q); }
        case CloseAllCall(p) => CloseFromEmpties(s, p, 0);
      }
    }
  }

  ghost function Run(s: State, cs: seq<Call>): State
    requires Inv(s)
    decreases |cs|
  {
    if cs == [] then s else StepKeeps(s, cs[0]); Run(Step(s, cs[0]), cs[1..])
  }

  /** Over every sequence of calls each reference count is the number of descriptors that name the
      description, none wraps, and every description ever opened is live or had its close hook run
      exactly once. */
  lemma {:induction false} RunKeeps(s: State, cs: seq<Call>)
    requires Inv(s)
    ensures Inv(Run(s, cs))
    decreases |cs|
  {
    hide CountedBut, InRange, Size, Step;
    if cs != [] {
      StepKeeps(s, cs[0]);
      RunKeeps(Step(s, cs[0]), cs[1..]);
    }
  }

  // ---- what the calls answer ---------------------------------------------------------------

  /** If every description were taken, the tables would be full. */
  lemma {:induction false} AllTaken(s: State, k: nat)
    requires CountedBut(s, -1, 0) && k <= |s.ofds| && forall i :: 0 <= i < k ==> s.ofds[i].refs != 0
    ensures Named(s.tables, k) >= k
  {
    if k > 0 {
      AllTaken(s, k - 1);
      assert s.ofds[k - 1].refs == CountAll(s.tables, k);
    }
  }

  /** open of a known kind fails exactly when its own table has no unused descriptor: there is
      always a description left for one. */
  lemma OpenFailsIff(s: State, p: nat, known: bool, d: Ofd, cloexec: bool)
    requires Inv(s) && Table(s, p)
    ensures Open(s, p, known, d, cloexec).1 == EMFILE <==>
            !known || forall fd :: 0 <= fd < |s.tables[p]| ==> s.tables[p][fd].ofd != 0
  {
    var oi, fd := FirstFree(s.ofds, 0), FirstUnused(s.tables[p], 0);
    if fd < |s.tables[p]| && oi == |s.ofds| {
      AllTaken(s, |s.ofds|);
      NamedAll(s.tables, |s.ofds|);
      assert false;
    }
  }

  /** No count exceeds the descriptors there are; one at the limit is named by every descriptor. */
  lemma CountsBounded(s: State, i: nat)
    requires Inv(s) && i < |s.ofds|
    ensures s.ofds[i].refs <= FULL
    ensures s.ofds[i].refs == FULL ==>
              forall p, fd :: 0 <= p < |s.tables| && 0 <= fd < |s.tables[p]| ==> s.tables[p][fd].ofd == i + 1
  {
    AllMost(s.tables, i + 1);
    forall p, fd | 0 <= p < |s.tables| && 0 <= fd < |s.tables[p]|
      ensures s.ofds[i].refs == FULL ==> s.tables[p][fd].ofd == i + 1
    {
      AllCounts(s.tables, p, fd, i + 1);
    }
  }

  /** dup_to answers newfd unless a descriptor is bad or the count is full, which takes every
      descriptor there is; then newfd names the description of oldfd, no other descriptor changes,
      and a description loses its payload only when newfd was its last name. */
  lemma DupToMeaning(s: State, p: nat, oldfd: int, newfd: int, cloexec: bool)
    requires Inv(s) && Table(s, p) && Found(s, p, oldfd) && 0 <= newfd < |s.tables[p]|
    ensures var r := DupTo(s, p, oldfd, newfd, cloexec);
            if r.1 == EMFILE
            then r.0 == s && forall q, fd :: 0 <= q < |s.tables| && 0 <= fd < |s.tables[q]| ==>
                s.tables[q][fd].ofd == s.tables[p][oldfd].ofd
            else && r.1 == Fd(newfd) && |r.0.tables| == |s.tables| && |r.0.tables[p]| == |s.tables[p]|
                 && r.0.tables[p][newfd].ofd == s.tables[p][oldfd].ofd
                 && (forall fd :: 0 <= fd < |s.tables[p]| && fd != newfd ==> r.0.tables[p][fd] == s.tables[p][fd])
                 && (forall q :: 0 <= q < |s.tables| && q != p ==> r.0.tables[q] == s.tables[q])
  {
    CountsBounded(s, Index(s, p, oldfd));
    hide Inv;
  }

  /** Whatever a call does, a description that stays open keeps its kind, backing and offset, and
      one whose hook runs is named by nobody. */
  lemma PayloadKept(s: State, p: nat, fd: int)
    requires Inv(s) && Table(s, p) && Found(s, p, fd)
    ensures var t := Close(s, p, fd).0;
            var k := Index(s, p, fd);
            && (forall i :: 0 <= i < |s.ofds| && i != k ==> t.ofds[i] == s.ofds[i])
            && (t.closed == s.closed <==> CountAll(t.tables, k + 1) > 0)
            && (CountAll(t.tables, k + 1) > 0 ==> t.ofds[k] == s.ofds[k].(refs := s.ofds[k].refs - 1))
            && (CountAll(t.tables, k + 1) == 0 ==> t.closed == s.closed + [s.ids[k]] && t.ofds[k] == FREE)
  {
    CloseKeeps(s, p, fd);
    var t := Close(s, p, fd).0;
    assert t.ofds[Index(s, p, fd)].refs == CountAll(t.tables, Index(s, p, fd) + 1);
    hide CountAll;
  }

  /** Table sizes and empty tables start every run. */
  lemma StartInv(n: nat, m: nat)
    requires n * m <= FULL
    ensures Inv(Start(n, m))
  {
    var s := Start(n, m);
    SizeIs(s.tables, m);
    forall id | 0 < id <= |s.ofds| ensures CountAll(s.tables, id) == 0 { NoneAll(s.tables, id); }
  }

  lemma {:induction false} NoneAll(tables: seq<seq<Entry>>, id: nat)
    requires id > 0 && forall p, fd :: 0 <= p < |tables| && 0 <= fd < |tables[p]| ==> tables[p][fd] == NONE
    ensures CountAll(tables, id) == 0
  {
    if tables != [] {
      NoneRow(tables[|tables| - 1], id);
      NoneAll(tables[..|tables| - 1], id);
    }
  }

  function Start(n: nat, m: nat): State {
    State(seq(n, _ => seq(m, _ => NONE)), seq(n * m, _ => FREE), seq(n * m, _ => 0), 0, [])
  }

  /** Every count is exact and fits its 16 bits. */
  predicate Exact(s: State) {
    forall i :: 0 <= i < |s.ofds| ==> s.ofds[i].refs == CountAll(s.tables, i + 1) <= FULL
  }

  lemma Spelled(s: State)
    requires Inv(s)
    ensures Exact(s) && |s.ids| == |s.ofds|
    ensures forall id :: 0 <= id < s.issued ==> (id in s.closed <==> !exists i :: Live(s, i) && s.ids[i] == id)
  {
    hide CountAll, Size;
    forall i | 0 <= i < |s.ofds| ensures s.ofds[i].refs == CountAll(s.tables, i + 1) <= FULL { CountsBounded(s, i); }
  }

  /** The same, spelled out for every run of a system with n tables of m descriptors. */
  lemma Reachable(n: nat, m: nat, cs: seq<Call>)
    requires n * m <= FULL
    ensures Inv(Start(n, m))
    ensures var s := Run(Start(n, m), cs);
            && Exact(s) && |s.ids| == |s.ofds|
            && (forall a, b :: 0 <= a < b < |s.closed| ==> s.closed[a] != s.closed[b])
            && (forall id :: 0 <= id < s.issued ==> (id in s.closed <==> !exists i :: Live(s, i) && s.ids[i] == id))
  {
    StartInv(n, m);
    hide Run, Start, Shape, InRange, CountedBut, Exact;
    RunKeeps(Start(n, m), cs);
    Spelled(Run(Start(n, m), cs));
  }
}
