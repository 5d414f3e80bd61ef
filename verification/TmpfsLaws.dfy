/** What the writable filesystem promises over time: how long a file's bytes stay, when room for more
    can be had, and where a renamed subtree ends up. */
module TmpfsLaws {
  import opened ArenaBlocks
  import opened ArenaCalls
  import opened ArenaFit
  import opened Tmpfs
  import Path

  // ---- the life of a node ------------------------------------------------------------------

  datatype Use = OpenIt | CloseIt | UnlinkIt

  function UseStep(n: Node, u: Use): Node {
    match u
    case OpenIt => if n.used && n.refs != 0xFFFF then n.(refs := n.refs + 1) else n
    case CloseIt => if n.used && n.refs > 0 then Closed(n) else n
    case UnlinkIt => if n.used then Unlinked(n) else n
  }

  function After(n: Node, us: seq<Use>): Node {
    if us == [] then n else UseStep(After(n, us[..|us| - 1]), us[|us| - 1])
  }

  /** One more use of a file that k descriptions have open. */
  function Held(k: nat, u: Use): (r: nat)
    ensures k <= 0xFFFF ==> r <= 0xFFFF
  {
    match u
    case OpenIt => if k < 0xFFFF then k + 1 else k
    case CloseIt => if k > 0 then k - 1 else 0
    case UnlinkIt => k
  }

  /** Descriptions open after these uses: a close without an open one and an open beyond 65535 do not
      count. */
  function Holders(us: seq<Use>): (k: nat)
    ensures k <= 0xFFFF
  {
    if us == [] then 0 else Held(Holders(us[..|us| - 1]), us[|us| - 1])
  }

  /** At some moment the name was gone and nobody had the file open. */
  predicate Abandoned(us: seq<Use>) {
    exists k :: 0 <= k <= |us| && UnlinkIt in us[..k] && Holders(us[..k]) == 0
  }

  /** File n, open k times, with its name or without. */
  function Now(n: Node, k: nat, nameless: bool): Node {
    n.(refs := k, linked := !nameless, path := if nameless then "" else n.path)
  }

  lemma NowStep(n: Node, k: nat, nameless: bool, u: Use)
    requires Named(n) && k <= 0xFFFF && (nameless ==> k > 0)
    ensures var x := nameless || u == UnlinkIt;
            UseStep(Now(n, k, nameless), u) == if x && Held(k, u) == 0 then EMPTY else Now(n, Held(k, u), x)
  {
  }

  /** A file is reclaimed exactly at the first moment when it has neither a name nor an open description;
      until then its bytes, its size and its mode are those it was given, and its name is there exactly
      as long as nobody unlinked it. */
  lemma {:induction false} NodeLife(n: Node, us: seq<Use>)
    requires Named(n) && n.refs == 0
    ensures After(n, us) == if Abandoned(us) then EMPTY else Now(n, Holders(us), UnlinkIt in us)
  {
    if us == [] {
      assert us[..0] == [];
      assert !Abandoned(us);
    } else {
      var pre, u := us[..|us| - 1], us[|us| - 1];
      NodeLife(n, pre);
      assert us == pre + [u];
      assert UnlinkIt in us <==> UnlinkIt in pre || u == UnlinkIt;
      AbandonedStep(us);
      if UnlinkIt in pre && Holders(pre) == 0 { AbandonedNow(pre); }
      hide Abandoned, Now, Holders;
      if !Abandoned(pre) { NowStep(n, Holders(pre), UnlinkIt in pre, u); }
      HoldersStep(us);
    }
  }

  lemma HoldersStep(us: seq<Use>)
    requires us != []
    ensures Holders(us) == Held(Holders(us[..|us| - 1]), us[|us| - 1])
  {
  }

  lemma AbandonedNow(us: seq<Use>)
    requires UnlinkIt in us && Holders(us) == 0
    ensures Abandoned(us)
  {
    assert us[..|us|] == us;
  }

  lemma AbandonedStep(us: seq<Use>)
    requires us != []
    ensures Abandoned(us) <==> Abandoned(us[..|us| - 1]) || (UnlinkIt in us && Holders(us) == 0)
  {
    var pre := us[..|us| - 1];
    assert us[..|us|] == us;
    forall k | 0 <= k <= |pre| ensures pre[..k] == us[..k] {}
    if Abandoned(pre) {
      var k :| 0 <= k <= |pre| && UnlinkIt in pre[..k] && Holders(pre[..k]) == 0;
      assert UnlinkIt in us[..k] && Holders(us[..k]) == 0;
    }
    if Abandoned(us) {
      var k :| 0 <= k <= |us| && UnlinkIt in us[..k] && Holders(us[..k]) == 0;
      assert k == |us| || (UnlinkIt in pre[..k] && Holders(pre[..k]) == 0);
    }
  }

  // ---- room ------------------------------------------------------------------------------------

  /** The capacity asked for first holds the file, is at least twice the old one unless the pool is too
      small for that, and wastes no more than doubling or rounding asks for. */
  lemma FirstCapBounds(cap: nat, need: nat, max: nat)
    requires cap < need <= max
    ensures need <= MinCap(need) < need + 256 && MinCap(need) % 256 == 0
    ensures need <= FirstCap(cap, need, max) <= max
    ensures FirstCap(cap, need, max) == max || FirstCap(cap, need, max) >= 2 * cap
    ensures FirstCap(cap, need, max) == max || FirstCap(cap, need, max) in {2 * cap, MinCap(need)}
    ensures FirstCap(cap, need, max) >= MinCap(need) || FirstCap(cap, need, max) == max
  {
  }

  lemma NeedMono(m: nat, n: nat)
    requires m <= n && Need(n) != 0
    ensures 0 < Need(m) <= Need(n)
  {
    DivMono(if m == 0 then 1 else m, if n == 0 then 1 else n);
  }

  lemma DivMono(m: nat, n: nat)
    requires m <= n
    ensures (m + (ALIGN - 1)) / ALIGN * ALIGN <= (n + (ALIGN - 1)) / ALIGN * ALIGN
  {
    assert (m + (ALIGN - 1)) / ALIGN <= (n + (ALIGN - 1)) / ALIGN;
  }

  /** What can be had for more bytes can be had for fewer. */
  lemma ReallocMono(s: State, p: nat, m: nat, n: nat, lo: nat, hi: nat)
    requires Good(s, lo, hi) && (p == 0 || Holds(s.blocks, p, 0)) && m <= n
    requires ReallocCall(s, p, n).1 != 0
    ensures ReallocCall(s, p, m).1 != 0
  {
    if p == 0 {
      AllocFailsIff(s, n);
      AllocFailsIff(s, m);
      NeedMono(m, n);
    } else {
      var b :| b in s.blocks && !b.free && b.Data() == p && 0 <= b.payload;
      ReallocAnswer(s, b, n, lo, hi);
      ReallocAnswer(s, b, m, lo, hi);
      RoomMono(s, b, m, n);
    }
  }

  lemma RoomMono(s: State, b: Block, m: nat, n: nat)
    requires m <= n && Need(n) != 0
    requires || Need(n) <= b.payload || (exists c :: RoomBehind(s.blocks, b, c, Need(n)))
             || (exists x :: x in s.blocks && x.free && x.payload >= Need(n))
    ensures Need(m) != 0
    ensures || Need(m) <= b.payload || (exists c :: RoomBehind(s.blocks, b, c, Need(m)))
            || (exists x :: x in s.blocks && x.free && x.payload >= Need(m))
  {
    hide Need;
    NeedMono(m, n);
    if exists c :: RoomBehind(s.blocks, b, c, Need(n)) {
      var c :| RoomBehind(s.blocks, b, c, Need(n));
      assert RoomBehind(s.blocks, b, c, Need(m));
    }
  }

  /** A file can grow exactly when the pool can give it the bytes rounded up to 256, or the whole pool
      if that is less: trying to double first never costs a write. */
  lemma ReserveIff(heap: State, w: Node, need: nat, max: nat, lo: nat, hi: nat)
    requires Good(heap, lo, hi) && (w.data == 0 || Holds(heap.blocks, w.data, 0))
    ensures CanReserve(heap, w, need, max) <==>
            need <= w.cap ||
            (need <= max && need <= 0xFFFF_FFFF - 255
             && ReallocCall(heap, w.data, if MinCap(need) < max then MinCap(need) else max).1 != 0)
  {
    hide ReallocCall, Good, Holds, MinCap, FirstCap;
    if w.cap < need <= max {
      FirstCapBounds(w.cap, need, max);
      var least := if MinCap(need) < max then MinCap(need) else max;
      if ReallocCall(heap, w.data, FirstCap(w.cap, need, max)).1 != 0 {
        ReallocMono(heap, w.data, least, FirstCap(w.cap, need, max), lo, hi);
      }
      if ReallocCall(heap, w.data, MinCap(need)).1 != 0 { ReallocMono(heap, w.data, least, MinCap(need), lo, hi); }
    }
  }

  // ---- moving a subtree --------------------------------------------------------------------------

  /** What was at a/rest before a directory a is renamed to c is at c/rest afterwards; the one name for
      which that fails is "/", which gives a path with two slashes. */
  lemma RehomedPath(n: Node, src: Node, a: seq<string>, rest: seq<string>, c: seq<string>)
    requires Named(n) && src.IsDir() && Path.Names(a + rest) && Path.Names(c) && a != [] && rest != []
    requires n.path == Path.Render(a + rest) && src.path == Path.Render(a)
    ensures Below(n, src)
    ensures Rehomed(n, src, Path.Render(c)).path == Path.Render(c + rest) <==> c != []
  {
    assert Path.Names(a) && a <= a + rest by { assert forall i :: 0 <= i < |a| ==> a[i] == (a + rest)[i]; }
    Path.UnderIsPrefix(a + rest, a);
    Path.JoinAppend(a, rest);
    Path.JoinAppend(c, rest);
    assert (Path.Join(a) + Path.Join(rest))[|Path.Join(a)|..] == Path.Join(rest);
    if c == [] { assert c + rest == rest; }
  }

  lemma UnderOf(n: Node, p: Node, a: seq<string>, b: seq<string>)
    requires Named(n) && p.IsDir() && Path.Names(a) && Path.Names(b)
    requires n.path == Path.Render(a) && p.path == Path.Render(b)
    ensures Below(n, p) <==> b <= a
  {
    Path.UnderIsPrefix(a, b);
  }

  lemma SameComps(a: seq<string>, b: seq<string>)
    requires Path.Names(a) && Path.Names(b) && Path.Render(a) == Path.Render(b)
    ensures a == b
  {
    Path.CompsOfRender(a);
    Path.CompsOfRender(b);
  }

  /** A rename that succeeds does not clear away the directory of any node. */
  lemma ParentStays(nodes: seq<Node>, i: nat, name: string, pathMax: nat, j: nat, k: nat, cs: seq<string>, x: string)
    requires i < |nodes| && j < |nodes| && k < |nodes| && Named(nodes[j]) && Named(nodes[k])
    requires Path.Names(cs + [x]) && nodes[k].path == Path.Render(cs) && nodes[j].path == Path.Render(cs + [x])
    requires nodes[j].path != name && nodes[i].path != name && RenameError(nodes, i, name, pathMax) == 0
    ensures nodes[k].path != name
    ensures Cleared(nodes, name)[j] == nodes[j] && Cleared(nodes, name)[k] == nodes[k]
  {
    hide Path.Under, AllFit;
    assert Path.Names(cs) by { assert forall y :: 0 <= y < |cs| ==> cs[y] == (cs + [x])[y]; }
    if nodes[k].path == name {
      Path.UnderIsPrefix(cs + [x], cs);
      assert false;
    }
  }

  /** Every node but the renamed one is in the same directory after a rename as before: where its
      directory was a node, that node is still there and its path is still the path above, moved or not. */
  lemma RenameKeepsParents(nodes: seq<Node>, i: nat, src: seq<string>, c: seq<string>, pathMax: nat,
                           j: nat, k: nat, cs: seq<string>, x: string)
    requires i < |nodes| && j < |nodes| && k < |nodes| && Named(nodes[i]) && Named(nodes[j]) && Named(nodes[k])
    requires Unique(nodes) && Path.Names(cs + [x]) && Path.Names(src) && Path.Names(c) && c != []
    requires nodes[i].path == Path.Render(src) != Path.Render(c) && nodes[k].path == Path.Render(cs)
    requires nodes[k].IsDir() && nodes[j].path == Path.Render(cs + [x]) != Path.Render(c) && j != i
    requires RenameError(nodes, i, Path.Render(c), pathMax) == 0
    ensures var r := RenamePaths(Cleared(nodes, Path.Render(c)), i, Path.Render(c));
            && Named(r[j]) && Named(r[k])
            && exists ds :: r[k].path == Path.Render(ds) && r[j].path == Path.Render(ds + [x])
  {
    hide Path.Under, RenameError, Path.Render, Unique, Cleared, Below, Rehomed;
    var name := Path.Render(c);
    ParentStays(nodes, i, name, pathMax, j, k, cs, x);
    ClearedNames(nodes, i, name);
    var r := RenamePaths(Cleared(nodes, name), i, name);
    assert Path.Names(cs) by { assert forall y :: 0 <= y < |cs| ==> cs[y] == (cs + [x])[y]; }
    var ds := MovedTo(nodes, i, src, c, pathMax, j, k, cs, x);
    assert r[k].path == Path.Render(ds) && r[j].path == Path.Render(ds + [x]);
  }

  lemma MovedTo(nodes: seq<Node>, i: nat, src: seq<string>, c: seq<string>, pathMax: nat,
                j: nat, k: nat, cs: seq<string>, x: string) returns (ds: seq<string>)
    requires i < |nodes| && j < |nodes| && k < |nodes| && Named(nodes[i]) && Named(nodes[j]) && Named(nodes[k])
    requires Unique(nodes) && Path.Names(cs) && Path.Names(cs + [x]) && Path.Names(src) && Path.Names(c) && c != []
    requires nodes[i].path == Path.Render(src) != Path.Render(c) && nodes[k].path == Path.Render(cs)
    requires nodes[k].IsDir() && nodes[j].path == Path.Render(cs + [x]) && j != i
    requires RenameError(nodes, i, Path.Render(c), pathMax) == 0
    ensures RenamedAt(nodes, i, Path.Render(c), k).path == Path.Render(ds)
    ensures RenamedAt(nodes, i, Path.Render(c), j).path == Path.Render(ds + [x])
  {
    hide Path.Under, Path.Render, Below, Rehomed, Path.Names;
    var name := Path.Render(c);
    if !nodes[i].IsDir() {
      NoneBelow(nodes[i]);
      ds := cs;
    } else {
      Path.RenderSlash(c);
      NotRoot(nodes, i, name, pathMax);
      assert src != [] by { RootIs(); }
      UnderOf(nodes[k], nodes[i], cs, src);
      UnderOf(nodes[j], nodes[i], cs + [x], src);
      assert nodes[j].path != nodes[i].path;
      if k == i { SameComps(cs, src); }
      if src <= cs {
        var rest := cs[|src|..];
        assert cs == src + rest && cs + [x] == src + (rest + [x]) && c + rest + [x] == c + (rest + [x]);
        ds := c + rest;
        RehomedPath(nodes[j], nodes[i], src, rest + [x], c);
        if k == i {
          assert ds == c;
        } else {
          assert nodes[k].path != nodes[i].path;
          assert rest == [] ==> cs == src;
          RehomedPath(nodes[k], nodes[i], src, rest, c);
        }
      } else {
        assert src <= cs + [x] ==> src == cs + [x];
        ds := cs;
      }
    }
  }

  lemma NoneBelow(src: Node)
    requires !src.IsDir()
    ensures forall n :: !Below(n, src)
  {
  }

  lemma RootIs()
    ensures Path.Render([]) == "/"
  {
  }

  /** Paths that fit their buffers before a successful rename fit them after it. */
  lemma RenameFits(nodes: seq<Node>, i: nat, name: string, pathMax: nat, j: nat)
    requires i < |nodes| && j < |nodes| && Named(nodes[i]) && Unique(nodes) && nodes[i].path != name
    requires RenameError(nodes, i, name, pathMax) == 0 && |nodes[j].path| < pathMax && name != "" && name[0] == '/'
    ensures |RenamePaths(Cleared(nodes, name), i, name)[j].path| < pathMax
  {
    hide Path.Under, Unique;
    var c := Cleared(nodes, name);
    ClearedNames(nodes, i, name);
    if j != i && Below(c[j], c[i]) {
      NotRoot(nodes, i, name, pathMax);
      UnderPrefix(c[j].path, c[i].path);
      assert c[j] == nodes[j];
    }
  }

  // ---- error numbers -----------------------------------------------------------------------------

  /** When a write answers with which Linux error number. */
  lemma WriteErrors(heap: State, w: Node, max: nat, readable: bool, len: nat, off: nat)
    ensures var r, top := WriteResult(heap, w, max, readable, len, off), 0xFFFF_FFFF;
            && (r >= 0 <==> off + len <= top && !w.IsDir() && CanReserve(heap, w, off + len, max) && readable)
            && (r >= 0 ==> r == len)
            && (r == -9 <==> off <= top && w.IsDir())
            && (r == -22 <==> off <= top < off + len && !w.IsDir())
            && (r == -27 <==> off > top || (off + len <= top && !w.IsDir() && !CanReserve(heap, w, off + len, max)))
            && (r == -14 <==> off + len <= top && !w.IsDir() && CanReserve(heap, w, off + len, max) && !readable)
  {
    hide CanReserve;
  }

  lemma TruncateErrors(heap: State, w: Node, max: nat, length: nat)
    ensures var r := TruncateResult(heap, w, max, length);
            && (r == -21 <==> w.IsDir())
            && (r == 0 || r == -21 || r == -27)
            && (!w.IsDir() ==>
                (r == 0 <==> length <= 0xFFFF_FFFF && (length <= w.size || CanReserve(heap, w, length, max))))
  {
    hide CanReserve;
  }
}
