/** The writable filesystem: a node table whose file bytes live in arena blocks that move as
    files grow, refining a table of abstract byte sequences. */
module Tmpfs {
  import opened Bytes
  import opened ArenaBlocks
  import opened ArenaCalls
  import Layout = ArenaLayout
  import Heap = Arena
  import Path

  const EFAULT: int := -14
  const EBADF: int := -9
  const EINVAL: int := -22
  const EFBIG: int := -27
  const EISDIR: int := -21
  const ENAMETOOLONG: int := -36
  const ENOTEMPTY: int := -39

  datatype Node = Node(path: string, mode: uint32, data: nat, size: nat, cap: nat, used: bool, refs: nat,
                       linked: bool) {
    /** (mode & S_IFMT) == S_IFDIR */
    predicate IsDir() { mode / 0x1000 % 16 == 4 }
  }

  const EMPTY := Node("", 0, 0, 0, 0, false, 0, false)

  predicate NodeOk(n: Node) {
    && n.size <= n.cap
    && (n.data == 0 ==> n.cap == 0)
    && (!n.used ==> n == EMPTY)
    && n.refs <= 0xFFFF
    && (n.used && !n.linked ==> n.refs > 0)
  }

  /** The bytes a reader of the node sees. */
  function Content(m: seq<byte>, n: Node): seq<byte> {
    if n.data == 0 || n.data + n.size > |m| then [] else m[n.data..n.data + n.size]
  }

  ghost function DataSet(nodes: seq<Node>): set<nat> {
    set i | 0 <= i < |nodes| && nodes[i].data != 0 :: nodes[i].data
  }

  /** Every live arena block backs exactly one node, and covers that node's capacity. */
  ghost predicate Owned(bs: seq<Block>, nodes: seq<Node>) {
    && (forall i :: 0 <= i < |nodes| && nodes[i].data != 0 ==> Holds(bs, nodes[i].data, nodes[i].cap))
    && (forall i, j :: 0 <= i < j < |nodes| && nodes[i].data != 0 ==> nodes[i].data != nodes[j].data)
    && Live(bs) == DataSet(nodes)
  }

  ghost function FilesOf(m: seq<byte>, nodes: seq<Node>): (r: seq<seq<byte>>)
    ensures |r| == |nodes|
  {
    seq(|nodes|, i requires 0 <= i < |nodes| => Content(m, nodes[i]))
  }

  // ---- abstract files ---------------------------------------------------------------

  /** A file after writing d at off: gaps read as zero, bytes past the write survive. */
  function Patched(c: seq<byte>, off: nat, d: seq<byte>): seq<byte> {
    var n := if off + |d| > |c| then off + |d| else |c|;
    seq(n, k requires 0 <= k < n => if off <= k < off + |d| then d[k - off] else if k < |c| then c[k] else 0)
  }

  /** What a read of up to len bytes at off returns. */
  function Window(c: seq<byte>, off: nat, len: nat): seq<byte> {
    if off >= |c| then [] else if off + len <= |c| then c[off..off + len] else c[off..]
  }

  /** How many bytes a read of len bytes at off can get from a file of this size. */
  function Available(size: nat, off: nat, len: nat): nat {
    if off >= size then 0 else if size - off < len then size - off else len
  }

  function Truncated(c: seq<byte>, n: nat): seq<byte> {
    if n <= |c| then c[..n] else c + seq(n - |c|, _ => 0)
  }

  /** A write of no bytes leaves a file alone if and only if it does not lie beyond the end. */
  lemma EmptyWriteIff(c: seq<byte>, off: nat)
    ensures Patched(c, off, []) == c <==> off <= |c|
  {
    assert |Patched(c, off, [])| == if off > |c| then off else |c|;
  }

  /** An empty file after a write of no bytes at offset 1. */
  lemma EmptyWriteExtends()
    ensures Patched([], 1, []) == [0] != []
  {
    assert |Patched([], 1, [])| == 1 && Patched([], 1, [])[0] == 0;
  }

  /** One successful call on a file. */
  datatype Op = WriteOp(off: nat, d: seq<byte>) | TruncateOp(len: nat)

  function FileAfter(ops: seq<Op>): seq<byte> {
    if ops == [] then []
    else
      var c := FileAfter(ops[..|ops| - 1]);
      match ops[|ops| - 1]
      case WriteOp(off, d) => Patched(c, off, d)
      case TruncateOp(n) => Truncated(c, n)
  }

  /** How long the file is: the longest write end since the last truncation, or its length. */
  function SizeAfter(ops: seq<Op>): nat {
    if ops == [] then 0
    else
      var n := SizeAfter(ops[..|ops| - 1]);
      match ops[|ops| - 1]
      case WriteOp(off, d) => Grown(n, off + |d|)
      case TruncateOp(len) => len
  }

  /** The byte at k, without building any file: that of the last write covering k, unless a later
      truncation cut it off; zero otherwise. */
  function ByteAfter(ops: seq<Op>, k: nat): byte {
    if ops == [] then 0
    else
      match ops[|ops| - 1]
      case WriteOp(off, d) => if off <= k < off + |d| then d[k - off] else ByteAfter(ops[..|ops| - 1], k)
      case TruncateOp(len) => if k >= len then 0 else ByteAfter(ops[..|ops| - 1], k)
  }

  /** Over every sequence of writes and truncations each byte of the file is the last one written
      there, and every gap reads as zero. */
  lemma {:induction false} LastWriteWins(ops: seq<Op>)
    ensures |FileAfter(ops)| == SizeAfter(ops)
    ensures forall k :: 0 <= k < |FileAfter(ops)| ==> FileAfter(ops)[k] == ByteAfter(ops, k)
    ensures forall k :: k >= SizeAfter(ops) ==> ByteAfter(ops, k) == 0
  {
    if ops != [] { LastWriteWins(ops[..|ops| - 1]); }
  }

  /** A read after any writes and truncations gets the bytes last written there, as many as lie
      before the end of the file and no more than it asks for. */
  lemma ReadSeesLast(ops: seq<Op>, off: nat, len: nat)
    ensures |Window(FileAfter(ops), off, len)| == Available(SizeAfter(ops), off, len)
    ensures forall k :: 0 <= k < |Window(FileAfter(ops), off, len)| ==>
                          Window(FileAfter(ops), off, len)[k] == ByteAfter(ops, off + k)
  {
    LastWriteWins(ops);
  }

  /** Two reads in a row, the second where the first stopped, get what one read of both lengths gets. */
  lemma ReadsJoin(c: seq<byte>, off: nat, m: nat, n: nat)
    ensures var d := Window(c, off, m); d + Window(c, off + |d|, n) == Window(c, off, m + n)
  {
  }

  lemma ContentSlice(m: seq<byte>, n: Node, off: nat, k: nat)
    requires n.data != 0 && n.data + n.size <= |m| && off + k <= n.size
    ensures |Content(m, n)| == n.size && Content(m, n)[off..off + k] == m[n.data + off..n.data + off + k]
  {
    var a, b := Content(m, n)[off..off + k], m[n.data + off..n.data + off + k];
    assert |a| == |b| && forall j :: 0 <= j < k ==> a[j] == m[n.data + off + j] == b[j];
  }

  // ---- ownership lemmas ---------------------------------------------------------------

  lemma DataSetUpdate(nodes: seq<Node>, i: nat, n: Node)
    requires i < |nodes|
    requires forall j :: 0 <= j < |nodes| && j != i && nodes[i].data != 0 ==> nodes[j].data != nodes[i].data
    ensures DataSet(nodes[i := n]) == DataSet(nodes) - {nodes[i].data} + (if n.data == 0 then {} else {n.data})
  {
    var r := nodes[i := n];
    forall d | d in DataSet(nodes) && d != nodes[i].data ensures d in DataSet(r) {
      var j :| 0 <= j < |nodes| && nodes[j].data != 0 && nodes[j].data == d;
      assert r[j] == nodes[j];
    }
    forall d | d in DataSet(r) ensures d in DataSet(nodes) - {nodes[i].data} + (if n.data == 0 then {} else {n.data}) {
      var j :| 0 <= j < |r| && r[j].data != 0 && r[j].data == d;
      if j != i {
        assert nodes[j].data == d;
      }
    }
    if n.data != 0 {
      assert r[i].data == n.data;
    }
  }

  /** Other owners after the block of node i moved from p to q. */
  lemma OwnedMove(s: State, t: State, nodes: seq<Node>, i: nat, q: nat, cap: nat)
    requires i < |nodes| && Owned(s.blocks, nodes) && q != 0
    requires Live(t.blocks) == Live(s.blocks) - {nodes[i].data} + {q}
    requires q == nodes[i].data || q !in Live(s.blocks)
    requires Holds(t.blocks, q, cap)
    requires forall d, len :: d != nodes[i].data && Holds(s.blocks, d, len) ==> Holds(t.blocks, d, len)
    ensures Owned(t.blocks, nodes[i := nodes[i].(data := q, cap := cap)])
  {
    var r := nodes[i := nodes[i].(data := q, cap := cap)];
    DataSetUpdate(nodes, i, r[i]);
    forall j | 0 <= j < |nodes| && j != i && nodes[j].data != 0
      ensures Holds(t.blocks, nodes[j].data, nodes[j].cap) && nodes[j].data != q
    {
      assert nodes[j].data in DataSet(nodes);
    }
  }

  lemma ResizeOwned(s: State, nodes: seq<Node>, i: nat, n: nat, lo: nat, hi: nat)
    requires Good(s, lo, hi) && i < |nodes| && Owned(s.blocks, nodes) && ReallocCall(s, nodes[i].data, n).1 != 0
    ensures var (t, q) := ReallocCall(s, nodes[i].data, n);
            Good(t, lo, hi) && Owned(t.blocks, nodes[i := nodes[i].(data := q, cap := n)])
  {
    var p := nodes[i].data;
    var (t, q) := ReallocCall(s, p, n);
    ReallocGood(s, p, n, lo, hi);
    if p == 0 {
      AllocLive(s, n, lo, hi);
      AllocFresh(s, n, lo, hi);
      HoldsLess(t.blocks, q, Need(n), n);
      NoneAtZero(s.blocks);
    } else {
      ReallocLive(s, p, n, lo, hi);
    }
    forall d, len | d != p && Holds(s.blocks, d, len) ensures Holds(t.blocks, d, len) {
      ReallocHolds(s, p, n, d, len);
    }
    OwnedMove(s, t, nodes, i, q, n);
  }

  lemma NoneAtZero(bs: seq<Block>)
    ensures 0 !in Live(bs)
  {
  }

  /** What an unmoved node reads after the arena kept its live bytes. */
  lemma KeptContent(m: seq<byte>, n: seq<byte>, bs: seq<Block>, node: Node, except: nat)
    requires |m| == |n| && Heap.KeepsLive(m, n, bs, except) && node.size <= node.cap
    requires node.data != 0 ==> Holds(bs, node.data, node.cap) && node.data != except
    ensures Content(m, node) == Content(n, node)
  {
    if node.data != 0 && node.data + node.size <= |m| {
      var b :| b in bs && !b.free && b.Data() == node.data && node.cap <= b.payload;
      assert Agree(m, n, b.Data(), b.End());
    }
  }

  /** What the resized node reads. */
  lemma MovedContent(m: seq<byte>, n: seq<byte>, bs: seq<Block>, lo: nat, hi: nat, node: Node, q: nat)
    requires Chain(bs, lo, hi) && hi <= |m| && node.data != 0 && node.size <= node.cap && Holds(bs, node.data, node.cap)
    requires q != 0 && Heap.KeepsBlock(m, n, bs, node.data, q)
    ensures Content(m, node) == Content(n, node.(data := q))
  {
    hide Chain, LiveAt;
    HoldsAt(bs, lo, hi, node.data, node.cap);
    var pay := bs[LiveAt(bs, node.data)].payload;
    SamePrefix(m, n, node.data, q, pay, node.size);
  }

  lemma SamePrefix(m: seq<byte>, n: seq<byte>, a: nat, b: nat, k: nat, j: nat)
    requires a + k <= |m| && b + k <= |n| && n[b..b + k] == m[a..a + k] && j <= k
    ensures n[b..b + j] == m[a..a + j]
  {
    assert n[b..b + j] == n[b..b + k][..j];
    assert m[a..a + j] == m[a..a + k][..j];
  }

  lemma ResizeFiles(m: seq<byte>, n: seq<byte>, s: State, nodes: seq<Node>, i: nat, q: nat, cap: nat, lo: nat, hi: nat)
    requires |m| == |n| && hi <= |m| && Good(s, lo, hi) && Owned(s.blocks, nodes) && i < |nodes| && q != 0
    requires forall j :: 0 <= j < |nodes| ==> NodeOk(nodes[j])
    requires Heap.KeepsLive(m, n, s.blocks, nodes[i].data)
    requires nodes[i].data != 0 ==> Heap.KeepsBlock(m, n, s.blocks, nodes[i].data, q)
    ensures FilesOf(n, nodes[i := nodes[i].(data := q, cap := cap)]) == FilesOf(m, nodes)
  {
    hide Content, Chain, Holds, Heap.KeepsLive, Heap.KeepsBlock, Coalesced, UsedSum, Tracked;
    forall j | 0 <= j < |nodes| && j != i ensures Content(m, nodes[j]) == Content(n, nodes[j]) {
      KeptContent(m, n, s.blocks, nodes[j], nodes[i].data);
    }
    if nodes[i].data != 0 {
      MovedContent(m, n, s.blocks, lo, hi, nodes[i], q);
    } else {
      EmptyContent(m, n, nodes[i], q);
    }
    assert FilesOf(n, nodes[i := nodes[i].(data := q, cap := cap)])[i] == Content(n, nodes[i].(data := q, cap := cap));
    SameContent(n, nodes[i].(data := q), cap);
  }

  lemma EmptyContent(m: seq<byte>, n: seq<byte>, node: Node, q: nat)
    requires node.data == 0 && NodeOk(node)
    ensures Content(m, node) == Content(n, node.(data := q))
  {
  }

  lemma SameContent(n: seq<byte>, node: Node, cap: nat)
    ensures Content(n, node.(cap := cap)) == Content(n, node)
  {
  }

  lemma FreshOwned(lo: nat, hi: nat, slots: nat, nodes: seq<Node>, m: seq<byte>, n: seq<byte>)
    requires lo + HDR <= hi && forall j :: 0 <= j < |nodes| ==> nodes[j].data == 0
    ensures Owned(Fresh(lo, hi, slots).blocks, nodes) && FilesOf(m, nodes) == FilesOf(n, nodes)
  {
  }

  /** A zeroed hole plus copied bytes read back as the abstract write. */
  lemma PatchedContent(m: seq<byte>, n: seq<byte>, node: Node, off: nat, d: seq<byte>)
    requires |m| == |n| && NodeOk(node) && off + |d| <= node.cap && node.data + node.cap <= |m|
    requires n[node.data + off..node.data + off + |d|] == d
    requires forall k :: node.data + node.size <= k < node.data + off ==> n[k] == 0
    requires forall k | node.data <= k < node.data + node.size ::
               node.data + off <= k < node.data + off + |d| || n[k] == m[k]
    ensures Content(n, node.(size := Grown(node.size, off + |d|))) == Patched(Content(m, node), off, d)
  {
    if node.data != 0 {
      var a, b := Content(n, node.(size := Grown(node.size, off + |d|))), Patched(Content(m, node), off, d);
      forall k | 0 <= k < |a| ensures a[k] == b[k] {
        var at := node.data + k;
        assert a[k] == n[at];
        if off <= k < off + |d| {
          assert n[node.data + off..node.data + off + |d|][k - off] == n[at];
          assert b[k] == d[k - off];
        } else if k < node.size {
          assert n[at] == m[at];
          assert b[k] == Content(m, node)[k] == m[at];
        } else {
          assert n[at] == 0 && b[k] == 0;
        }
      }
    }
  }

  function Grown(size: nat, end: nat): nat { if end > size then end else size }

  lemma TruncatedContent(m: seq<byte>, n: seq<byte>, node: Node, len: nat)
    requires |m| == |n| && NodeOk(node) && node.data + node.cap <= |m| && len <= node.cap
    requires forall k :: node.data + node.size <= k < node.data + len ==> n[k] == 0
    requires forall k :: node.data <= k < node.data + node.size ==> n[k] == m[k]
    ensures Content(n, node.(size := len)) == Truncated(Content(m, node), len)
  {
  }

  /** Ownership and contents depend only on where the bytes are. */
  lemma SameBytes(bs: seq<Block>, m: seq<byte>, a: seq<Node>, b: seq<Node>)
    requires |a| == |b| && Owned(bs, a)
    requires forall i :: 0 <= i < |a| ==> a[i].data == b[i].data && a[i].cap == b[i].cap && a[i].size == b[i].size
    ensures Owned(bs, b) && FilesOf(m, a) == FilesOf(m, b)
  {
    hide Holds;
    assert DataSet(a) == DataSet(b);
  }

  /** Releasing node i's block leaves every other owner. */
  lemma ReclaimOwned(s: State, nodes: seq<Node>, i: nat, lo: nat, hi: nat)
    requires Good(s, lo, hi) && i < |nodes| && Owned(s.blocks, nodes) && nodes[i].data != 0
    ensures FreeCall(s, nodes[i].data).1 && Good(FreeCall(s, nodes[i].data).0, lo, hi)
    ensures Owned(FreeCall(s, nodes[i].data).0.blocks, nodes[i := EMPTY])
  {
    var p := nodes[i].data;
    HoldsAt(s.blocks, lo, hi, p, nodes[i].cap);
    var k := LiveAt(s.blocks, p);
    FreeGood(s, k, ClearRecords(s.records, p), lo, hi);
    LiveFree(s.blocks, k, lo, hi);
    DataSetUpdate(nodes, i, EMPTY);
    forall j | 0 <= j < |nodes| && j != i && nodes[j].data != 0
      ensures Holds(FreeAt(s.blocks, k), nodes[j].data, nodes[j].cap)
    {
      FreeHolds(s.blocks, k, nodes[j].data, nodes[j].cap);
    }
  }

  /** Stores inside one node's capacity leave the headers and every other node alone. */
  lemma WriteInside(m: seq<byte>, n: seq<byte>, bs: seq<Block>, nodes: seq<Node>, i: nat, lo: nat, hi: nat)
    requires Layout.Tiles(m, bs, lo, hi) && Owned(bs, nodes) && i < |nodes| && nodes[i].data != 0
    requires forall j :: 0 <= j < |nodes| ==> NodeOk(nodes[j])
    requires AgreeOutside(m, n, nodes[i].data, nodes[i].data + nodes[i].cap)
    ensures Layout.Tiles(n, bs, lo, hi)
    ensures forall j :: 0 <= j < |nodes| && j != i ==> Content(m, nodes[j]) == Content(n, nodes[j])
    ensures lo <= nodes[i].data && nodes[i].data + nodes[i].cap <= hi
  {
    HoldsAt(bs, lo, hi, nodes[i].data, nodes[i].cap);
    var k := LiveAt(bs, nodes[i].data);
    ChainAt(bs, lo, hi, k);
    Layout.PayloadWrite(m, n, bs, k, lo, hi);
    hide LiveAt, Chain;
    forall j | 0 <= j < |nodes| && j != i ensures Content(m, nodes[j]) == Content(n, nodes[j]) {
      if nodes[j].data != 0 {
        HoldsDisjoint(bs, lo, hi, nodes[i].data, nodes[i].cap, nodes[j].data, nodes[j].cap);
      }
    }
  }

  /** A node after its name is removed, and after one of its descriptions is closed. */
  function Unlinked(n: Node): Node { if n.refs == 0 then EMPTY else n.(linked := false, path := "") }

  function Closed(n: Node): Node
    requires n.refs > 0
  {
    if n.refs == 1 && !n.linked then EMPTY else n.(refs := n.refs - 1)
  }

  lemma KeptFiles(m: seq<byte>, n: seq<byte>, bs: seq<Block>, nodes: seq<Node>, i: nat)
    requires |m| == |n| && i < |nodes| && Owned(bs, nodes) && Heap.KeepsLive(m, n, bs, nodes[i].data)
    requires forall j :: 0 <= j < |nodes| ==> NodeOk(nodes[j])
    requires nodes[i].data != 0
    ensures forall j :: 0 <= j < |nodes| && j != i ==> Content(m, nodes[j]) == Content(n, nodes[j])
  {
    forall j | 0 <= j < |nodes| && j != i ensures Content(m, nodes[j]) == Content(n, nodes[j]) {
      KeptContent(m, n, bs, nodes[j], nodes[i].data);
    }
  }

  // ---- renaming ------------------------------------------------------------------------

  predicate Named(n: Node) { n.used && n.linked }

  /** The first linked node with this path, or the table length. */
  function FindSpec(nodes: seq<Node>, path: string): (i: nat)
    ensures i <= |nodes|
    ensures i < |nodes| ==> Named(nodes[i]) && nodes[i].path == path
    ensures forall j :: 0 <= j < i ==> !(Named(nodes[j]) && nodes[j].path == path)
  {
    if nodes == [] then 0
    else if Named(nodes[0]) && nodes[0].path == path then 0
    else 1 + FindSpec(nodes[1..], path)
  }

  /** Node n is carried along when the directory src is renamed. */
  predicate Below(n: Node, src: Node) {
    Named(n) && src.IsDir() && Path.Under(n.path, src.path) != 0
  }

  function Rehomed(n: Node, src: Node, name: string): Node
    requires Below(n, src)
  {
    n.(path := name + n.path[|src.path|..])
  }

  function RenamedAt(nodes: seq<Node>, i: nat, name: string, j: nat): Node
    requires i < |nodes| && j < |nodes|
  {
    if j == i then nodes[i].(path := name)
    else if Below(nodes[j], nodes[i]) then Rehomed(nodes[j], nodes[i], name)
    else nodes[j]
  }

  function RenamePaths(nodes: seq<Node>, i: nat, name: string): (r: seq<Node>)
    requires i < |nodes|
    ensures |r| == |nodes|
    ensures forall j :: 0 <= j < |r| ==> r[j] == nodes[j].(path := r[j].path)
  {
    seq(|nodes|, j requires 0 <= j < |nodes| => RenamedAt(nodes, i, name, j))
  }

  /** The table with the node that held the new name unlinked. */
  function Cleared(nodes: seq<Node>, name: string): (r: seq<Node>)
    ensures |r| == |nodes|
  {
    var di := FindSpec(nodes, name);
    if di < |nodes| then nodes[di := Unlinked(nodes[di])] else nodes
  }

  predicate HasDescendant(nodes: seq<Node>, dir: string) {
    exists j :: 0 <= j < |nodes| && Named(nodes[j]) && nodes[j].path != dir && Path.Under(nodes[j].path, dir) != 0
  }

  predicate AllFit(nodes: seq<Node>, i: nat, name: string, pathMax: nat)
    requires i < |nodes|
  {
    forall j :: 0 <= j < |nodes| && j != i && Below(nodes[j], nodes[i]) ==>
                  |nodes[j].path| - |nodes[i].path| + |name| < pathMax
  }

  /** The error lxp_wfs_rename answers with, or 0. */
  function RenameError(nodes: seq<Node>, i: nat, name: string, pathMax: nat): int
    requires i < |nodes|
  {
    if nodes[i].path == name then 0
    else if |name| >= pathMax then ENAMETOOLONG
    else if nodes[i].IsDir() && Path.Under(name, nodes[i].path) != 0 then EINVAL
    else if FindSpec(nodes, name) < |nodes| && HasDescendant(nodes, name) then ENOTEMPTY
    else if !AllFit(nodes, i, name, pathMax) then ENAMETOOLONG
    else 0
  }

  // ---- what renaming keeps ---------------------------------------------------------------

  /** No two linked nodes share a name. */
  ghost predicate Unique(nodes: seq<Node>) {
    forall j, k :: 0 <= j < k < |nodes| && Named(nodes[j]) && Named(nodes[k]) ==> nodes[j].path != nodes[k].path
  }

  /** Some linked node that does not move already has a name the move would give out. */
  ghost predicate Collides(nodes: seq<Node>, i: nat, name: string)
    requires i < |nodes|
  {
    exists j, k :: 0 <= j < |nodes| && 0 <= k < |nodes| && j != i && k != i && Below(nodes[j], nodes[i])
                   && Named(nodes[k]) && !Below(nodes[k], nodes[i])
                   && nodes[k].path == Rehomed(nodes[j], nodes[i], name).path
  }

  lemma UnderPrefix(p: string, q: string)
    requires Path.Under(p, q) != 0 && q != "/"
    ensures |q| <= |p| && p[..|q|] == q && (|p| == |q| || p[|q|] == '/')
  {
  }

  /** On success the linked names stay unique exactly when no moved descendant lands on the
      name of a node outside the subtree. */
  lemma RenameUniqueIff(nodes: seq<Node>, i: nat, name: string, pathMax: nat)
    requires i < |nodes| && Named(nodes[i]) && Unique(nodes) && nodes[i].path != name
    requires RenameError(nodes, i, name, pathMax) == 0 && name != "" && name[0] == '/'
    ensures Unique(RenamePaths(Cleared(nodes, name), i, name)) <==> !Collides(Cleared(nodes, name), i, name)
  {
    var c := Cleared(nodes, name);
    ClearedNames(nodes, i, name);
    var r := RenamePaths(c, i, name);
    if Collides(c, i, name) {
      var j, k :| 0 <= j < |c| && 0 <= k < |c| && j != i && k != i && Below(c[j], c[i])
                  && Named(c[k]) && !Below(c[k], c[i]) && c[k].path == Rehomed(c[j], c[i], name).path;
      assert r[j] == RenamedAt(c, i, name, j) && r[k] == RenamedAt(c, i, name, k);
      assert Named(r[j]) && Named(r[k]) && r[j].path == r[k].path && j != k;
    } else {
      forall j, k | 0 <= j < k < |r| && Named(r[j]) && Named(r[k]) ensures r[j].path != r[k].path {
        DistinctAfter(c, i, name, j, k);
      }
    }
  }

  /** Clearing the new name leaves unique names, none of them the new one, and node i alone. */
  lemma ClearedNames(nodes: seq<Node>, i: nat, name: string)
    requires i < |nodes| && Unique(nodes) && nodes[i].path != name
    ensures Unique(Cleared(nodes, name)) && Cleared(nodes, name)[i] == nodes[i]
    ensures forall k :: 0 <= k < |nodes| && Named(Cleared(nodes, name)[k]) ==> Cleared(nodes, name)[k].path != name
  {
    var c, di := Cleared(nodes, name), FindSpec(nodes, name);
    forall k | 0 <= k < |nodes| && Named(c[k]) ensures c[k].path != name && c[k] == nodes[k] {
      if k > di {
        assert nodes[k].path != nodes[di].path;
      }
    }
  }

  lemma DistinctAfter(c: seq<Node>, i: nat, name: string, j: nat, k: nat)
    requires i < |c| && Named(c[i]) && Unique(c) && j < k < |c| && (c[i].IsDir() ==> c[i].path != "/")
    requires forall x :: 0 <= x < |c| && Named(c[x]) ==> c[x].path != name
    requires !Collides(c, i, name) && Named(c[j]) && Named(c[k])
    ensures RenamedAt(c, i, name, j).path != RenamedAt(c, i, name, k).path
  {
    hide Path.Under;
    var src := c[i];
    var mj, mk := j != i && Below(c[j], src), k != i && Below(c[k], src);
    assert c[j].path != c[k].path;
    if mj { UnderPrefix(c[j].path, src.path); }
    if mk { UnderPrefix(c[k].path, src.path); }
    if mj && mk {
      SuffixDiffers(src.path, c[j].path, c[k].path, name);
    } else if mj && k == i {
      SuffixDiffers(src.path, c[j].path, src.path, name);
      assert name + src.path[|src.path|..] == name;
    } else if mk && j == i {
      SuffixDiffers(src.path, src.path, c[k].path, name);
      assert name + src.path[|src.path|..] == name;
    }
  }

  lemma SuffixDiffers(base: string, p: string, q: string, name: string)
    requires |base| <= |p| && |base| <= |q| && p[..|base|] == base == q[..|base|] && p != q
    ensures name + p[|base|..] != name + q[|base|..]
  {
    assert p == base + p[|base|..] && q == base + q[|base|..];
    assert (name + p[|base|..])[|name|..] == p[|base|..];
    assert (name + q[|base|..])[|name|..] == q[|base|..];
  }

  /** In particular names stay unique when nothing outside the subtree lies below the new name. */
  lemma RenameUnique(nodes: seq<Node>, i: nat, name: string, pathMax: nat)
    requires i < |nodes| && Named(nodes[i]) && Unique(nodes) && nodes[i].path != name
    requires RenameError(nodes, i, name, pathMax) == 0
    requires name != "" && name[0] == '/' && name != "/"
    requires forall k :: 0 <= k < |nodes| && k != i && Named(nodes[k]) && !Below(nodes[k], nodes[i]) ==>
                           nodes[k].path == name || Path.Under(nodes[k].path, name) == 0
    ensures Unique(RenamePaths(Cleared(nodes, name), i, name))
  {
    hide RenameError, RenamePaths, Unique, Path.Under;
    RenameUniqueIff(nodes, i, name, pathMax);
    ClearedNames(nodes, i, name);
    if nodes[i].IsDir() { NotRoot(nodes, i, name, pathMax); }
    var c := Cleared(nodes, name);
    if Collides(c, i, name) {
      var j, k :| 0 <= j < |c| && 0 <= k < |c| && j != i && k != i && Below(c[j], c[i])
                  && Named(c[k]) && !Below(c[k], c[i]) && c[k].path == Rehomed(c[j], c[i], name).path;
      MovedIsUnder(c[j], c[i], name);
      assert false;
    }
  }

  lemma NotRoot(nodes: seq<Node>, i: nat, name: string, pathMax: nat)
    requires i < |nodes| && RenameError(nodes, i, name, pathMax) == 0 && name != nodes[i].path
    requires name != "" && name[0] == '/' && nodes[i].IsDir()
    ensures nodes[i].path != "/"
  {
  }

  lemma MovedIsUnder(n: Node, src: Node, name: string)
    requires Below(n, src) && src.path != "/" && name != "/" && name != ""
    ensures Rehomed(n, src, name).path == name || Path.Under(Rehomed(n, src, name).path, name) != 0
  {
    UnderPrefix(n.path, src.path);
    var p := Rehomed(n, src, name).path;
    assert p[..|name|] == name;
  }

  /** When something does lie there the code can leave two nodes with one name: /d holding /d/f,
      renamed onto /x while a node /x/f exists and /x itself has none. */
  lemma RenameCanCollide()
    ensures var dir := Node("/d", 0x4000, 0, 0, 0, true, 0, true);
            var kid := Node("/d/f", 0x8000, 0, 0, 0, true, 0, true);
            var old_ := Node("/x/f", 0x8000, 0, 0, 0, true, 0, true);
            var nodes := [dir, kid, old_];
            && Unique(nodes) && RenameError(nodes, 0, "/x", 256) == 0
            && !Unique(RenamePaths(Cleared(nodes, "/x"), 0, "/x"))
  {
    var dir := Node("/d", 0x4000, 0, 0, 0, true, 0, true);
    var kid := Node("/d/f", 0x8000, 0, 0, 0, true, 0, true);
    var old_ := Node("/x/f", 0x8000, 0, 0, 0, true, 0, true);
    var nodes := [dir, kid, old_];
    assert kid.path[..2] == "/d" && kid.path[2] == '/';
    assert Below(kid, dir);
    assert old_.path[1] != dir.path[1] && !Below(old_, dir);
    assert kid.path[2..] == "/f";
    assert "/x" + "/f" == "/x/f";
    assert FindSpec(nodes, "/x") == 3;
    assert Cleared(nodes, "/x") == nodes;
    var r := RenamePaths(nodes, 0, "/x");
    assert r[1].path == r[2].path && Named(r[1]) && Named(r[2]);
  }

  // ---- growth --------------------------------------------------------------------------

  /** The room needed, in steps of 256 bytes. */
  function MinCap(need: nat): nat { (need + 255) / 256 * 256 }

  /** The room asked for first: doubled while that fits. */
  function FirstCap(cap: nat, need: nat, max: nat): (n: nat)
    ensures n <= max
  {
    var n := if cap > max / 2 then max else if cap * 2 > MinCap(need) then cap * 2 else MinCap(need);
    if n > max then max else n
  }

  /** Whether need bytes can be had for a node: it has them already, or the allocator can give the
      first or at least the smallest capacity that holds them. */
  predicate CanReserve(heap: State, w: Node, need: nat, max: nat) {
    || need <= w.cap
    || (need <= max && need <= 0xFFFF_FFFF - 255
        && (ReallocCall(heap, w.data, FirstCap(w.cap, need, max)).1 != 0
            || ReallocCall(heap, w.data, MinCap(need)).1 != 0))
  }

  /** What a write answers. */
  function WriteResult(heap: State, w: Node, max: nat, readable: bool, len: nat, off: nat): int {
    if off > 0xFFFF_FFFF then EFBIG
    else if w.IsDir() then EBADF
    else if off + len > 0xFFFF_FFFF then EINVAL
    else if !CanReserve(heap, w, off + len, max) then EFBIG
    else if !readable then EFAULT
    else len
  }

  function TruncateResult(heap: State, w: Node, max: nat, length: nat): int {
    if w.IsDir() then EISDIR
    else if length > 0xFFFF_FFFF || (length > w.size && !CanReserve(heap, w, length, max)) then EFBIG
    else 0
  }

  class Tmpfs {
    const arena: Heap.Arena
    const pool: nat
    const poolSize: nat
    var nodes: seq<Node>
    var ready: bool

    /** The build-time pool and, once it is initialised, the arena over it. */
    ghost predicate Backed()
      reads this, arena, arena.mem
    {
      && arena.Control() && arena.mem.Length < TWO32
      && pool > 0 && pool % ALIGN == 0 && poolSize >= 512 && poolSize % ALIGN == 0
      && pool + poolSize <= arena.mem.Length
      && (ready ==> arena.LayoutOk() && arena.base == pool && arena.size == poolSize
                    && Good(arena.Abs(), pool, pool + poolSize))
    }

    ghost predicate Valid()
      reads this, arena, arena.mem
    {
      && Backed()
      && (forall i :: 0 <= i < |nodes| ==> NodeOk(nodes[i]))
      && (if ready then Owned(arena.Blocks(), nodes) else forall i :: 0 <= i < |nodes| ==> nodes[i].data == 0)
    }

    /** The allocator's state, or the one it will start from. */
    ghost function HeapState(): State
      requires Backed()
      reads this, arena, arena.mem
    {
      if ready then arena.Abs() else Fresh(pool, pool + poolSize, |arena.records|)
    }

    /** What every node reads. */
    ghost function Files(): seq<seq<byte>>
      reads this, arena.mem
    {
      FilesOf(arena.mem[..], nodes)
    }

    constructor (heap: Heap.Arena, at: nat, len: nat, count: nat)
      requires heap.Control() && heap.mem.Length < TWO32
      requires at > 0 && at % ALIGN == 0 && len >= 512 && len % ALIGN == 0 && at + len <= heap.mem.Length
      ensures Valid() && arena == heap && nodes == seq(count, _ => EMPTY)
    {
      arena, pool, poolSize := heap, at, len;
      nodes, ready := seq(count, _ => EMPTY), false;
    }

    /** Lazy lxp_arena_init of the pool. */
    method Prepare()
      requires Valid()
      modifies this`ready, arena, arena.mem
      ensures Valid() && ready && Files() == old(Files()) && arena.Abs() == old(HeapState())
    {
      hide Good, Owned, FilesOf, Content, Layout.Parse, UsedSum;
      if !ready {
        ghost var m := arena.mem[..];
        var rc := arena.Init(pool, poolSize);
        assert rc.Ok? by { assert pool <= pool < pool + 16 && pool % 16 == 0 && pool + 32 <= pool + poolSize; }
        ready := true;
        FreshGood(pool, pool + poolSize, |arena.records|, 0);
        assert Good(arena.Abs(), pool, pool + poolSize);
        FreshOwned(pool, pool + poolSize, |arena.records|, nodes, m, arena.mem[..]);
      }
    }

    /** One lxp_arena_realloc attempt for node i. */
    method Resize(i: nat, cap: uint32) returns (ok: bool)
      requires Valid() && ready && i < |nodes| && nodes[i].used && nodes[i].cap <= cap
      modifies this`nodes, arena, arena.mem
      ensures Valid() && ready && Files() == old(Files())
      ensures ok <==> ReallocCall(old(arena.Abs()), old(nodes)[i].data, cap).1 != 0
      ensures !ok ==> nodes == old(nodes) && arena.Abs() == old(arena.Abs())
      ensures ok ==> nodes == old(nodes)[i := old(nodes)[i].(data := nodes[i].data, cap := cap)] && nodes[i].data != 0
    {
      hide Good, Owned, FilesOf, Content, ReallocCall, Layout.Parse, UsedSum, Heap.KeepsLive, Heap.KeepsBlock;
      ghost var m, s := arena.mem[..], arena.Abs();
      var q := arena.Realloc(nodes[i].data, cap);
      ok := q != 0;
      if ok {
        ResizeOwned(s, nodes, i, cap, pool, pool + poolSize);
        ResizeFiles(m, arena.mem[..], s, nodes, i, q, cap, pool, pool + poolSize);
        nodes := nodes[i := nodes[i].(data := q, cap := cap)];
      }
    }

    /** lxp_wfs_reserve: make room for `need` bytes in node i. */
    method Reserve(i: nat, need: uint32) returns (ok: bool)
      requires Valid() && i < |nodes| && nodes[i].used
      modifies this, arena, arena.mem
      ensures Valid() && Files() == old(Files()) && |nodes| == old(|nodes|)
      ensures nodes == old(nodes)[i := old(nodes)[i].(data := nodes[i].data, cap := nodes[i].cap)]
      ensures ok <==> CanReserve(old(HeapState()), old(nodes)[i], need, poolSize - ALIGN)
      ensures ok ==> need <= nodes[i].cap && (ready || nodes == old(nodes))
      ensures !ok || old(nodes)[i].cap >= need ==> nodes == old(nodes)
      ensures ok && old(nodes)[i].cap < need ==>
          nodes[i].cap in {FirstCap(old(nodes)[i].cap, need, poolSize - ALIGN), MinCap(need)}
    {
      hide FilesOf, Content, Layout.Parse, UsedSum, Owned, Good, ReallocCall;
      var w := nodes[i];
      assert nodes == nodes[i := w.(data := w.data, cap := w.cap)];
      if need <= w.cap {
        return true;
      }
      assert poolSize < TWO32 by { assert Backed(); }
      var maxPayload := poolSize - ALIGN;
      if need > maxPayload || need > 0xFFFF_FFFF - 255 {
        return false;
      }
      var mincap := MinCap(need);
      var ncap := mincap;
      if w.cap > maxPayload / 2 {
        ncap := maxPayload;
      } else if w.cap * 2 > ncap {
        ncap := w.cap * 2;
      }
      if ncap > maxPayload {
        ncap := maxPayload;
      }
      Prepare();
      ok := Resize(i, ncap);
      if !ok && ncap != mincap {
        ok := Resize(i, mincap);
      }
    }

    lemma NodeBounds(i: nat)
      requires Valid() && i < |nodes|
      ensures nodes[i].data + nodes[i].cap <= arena.mem.Length
      ensures nodes[i].data != 0 ==> ready && Layout.Tiles(arena.mem[..], arena.Blocks(), pool, pool + poolSize)
      ensures nodes[i].size <= nodes[i].cap
    {
      hide Good, Layout.Parse, UsedSum, Layout.Tiles;
      if nodes[i].data != 0 {
        arena.LayoutTiles();
        HoldsAt(arena.Blocks(), pool, pool + poolSize, nodes[i].data, nodes[i].cap);
        ChainAt(arena.Blocks(), pool, pool + poolSize, LiveAt(arena.Blocks(), nodes[i].data));
      }
    }

    /** memset of bytes past the end of node i's file. */
    method ZeroTail(i: nat, from: nat, to: nat)
      requires Valid() && i < |nodes| && nodes[i].size <= from <= to <= nodes[i].cap
      modifies arena.mem
      ensures Valid() && Files() == old(Files())
      ensures nodes[i].data + to <= arena.mem.Length
      ensures AgreeOutside(old(arena.mem[..]), arena.mem[..], nodes[i].data + from, nodes[i].data + to)
      ensures forall k :: nodes[i].data + from <= k < nodes[i].data + to ==> arena.mem[k] == 0
    {
      hide Good, Owned, Layout.Parse, UsedSum, Layout.Tiles;
      NodeBounds(i);
      if nodes[i].data != 0 {
        ghost var m, bs := arena.mem[..], arena.Blocks();
        Zero(arena.mem, nodes[i].data + from, to - from);
        WriteInside(m, arena.mem[..], bs, nodes, i, pool, pool + poolSize);
        arena.Adopt(bs);
        assert Content(m, nodes[i]) == Content(arena.mem[..], nodes[i]);
      }
    }

    /** memcpy of guest bytes into node i's capacity. */
    method CopyIn(i: nat, off: nat, d: seq<byte>)
      requires Valid() && i < |nodes| && off + |d| <= nodes[i].cap
      modifies arena.mem
      ensures Valid() && |Files()| == |old(Files())|
      ensures forall j :: 0 <= j < |nodes| && j != i ==> Files()[j] == old(Files())[j]
      ensures nodes[i].data + off + |d| <= arena.mem.Length
      ensures AgreeOutside(old(arena.mem[..]), arena.mem[..], nodes[i].data + off, nodes[i].data + off + |d|)
      ensures arena.mem[nodes[i].data + off..nodes[i].data + off + |d|] == d
    {
      hide Good, Owned, Layout.Parse, UsedSum, Layout.Tiles, Content;
      NodeBounds(i);
      if nodes[i].data != 0 {
        ghost var m, bs := arena.mem[..], arena.Blocks();
        Paste(arena.mem, nodes[i].data + off, d);
        WriteInside(m, arena.mem[..], bs, nodes, i, pool, pool + poolSize);
        arena.Adopt(bs);
      }
    }

    /** Record a new file length. */
    method SetSize(i: nat, size: nat)
      requires Valid() && i < |nodes| && nodes[i].used && size <= nodes[i].cap
      modifies this`nodes
      ensures Valid() && nodes == old(nodes)[i := old(nodes)[i].(size := size)]
      ensures |Files()| == |old(Files())| && Files()[i] == Content(arena.mem[..], nodes[i])
      ensures forall j :: 0 <= j < |nodes| && j != i ==> Files()[j] == old(Files())[j]
    {
      hide Good, Layout.Parse, UsedSum, Content, Holds;
      DataSetUpdate(nodes, i, nodes[i].(size := size));
      assert nodes[i].data != 0 ==> nodes[i].data in DataSet(nodes);
      nodes := nodes[i := nodes[i].(size := size)];
    }

    /** fop_pwrite_tmpfs: `guest` is None when the guest range is not readable. */
    method Pwrite(i: nat, guest: Option<seq<byte>>, len: uint32, off: nat) returns (r: int)
      requires Valid() && i < |nodes| && nodes[i].used
      requires guest.Some? ==> |guest.value| == len
      modifies this, arena, arena.mem
      ensures Valid() && |nodes| == old(|nodes|)
      ensures nodes ==
          old(nodes)[i := old(nodes)[i].(data := nodes[i].data, cap := nodes[i].cap, size := nodes[i].size)]
      ensures forall j :: 0 <= j < |nodes| && j != i ==> Files()[j] == old(Files())[j]
      ensures r == WriteResult(old(HeapState()), old(nodes)[i], poolSize - ALIGN, guest.Some?, len, off)
      ensures r < 0 ==> Files()[i] == old(Files())[i]
      ensures r >= 0 ==> guest.Some? && Files()[i] == Patched(old(Files())[i], off, guest.value)
      ensures len == 0 && r == 0 ==> (Files()[i] == old(Files())[i] <==> off <= |old(Files())[i]|)
    {
      hide Good, Owned, Layout.Parse, UsedSum, Content, Patched, CanReserve;
      EmptyWriteIff(Files()[i], off);
      if off <= 0xFFFF_FFFF { ModOnce(off + len, TWO32); }
      if off > 0xFFFF_FFFF {
        return EFBIG;
      }
      if nodes[i].IsDir() {
        return EBADF;
      }
      if (off + len) % TWO32 < len {
        return EINVAL;
      }
      var ok := Reserve(i, off + len);
      if !ok {
        return EFBIG;
      }
      r := Store(i, guest, len, off);
    }

    /** The part of a write after the reservation. */
    method Store(i: nat, guest: Option<seq<byte>>, len: uint32, off: nat) returns (r: int)
      requires Valid() && i < |nodes| && nodes[i].used && off + len <= nodes[i].cap
      requires guest.Some? ==> |guest.value| == len
      modifies this`nodes, arena.mem
      ensures Valid() && |nodes| == old(|nodes|)
      ensures nodes == old(nodes)[i := old(nodes)[i].(size := nodes[i].size)]
      ensures forall j :: 0 <= j < |nodes| && j != i ==> Files()[j] == old(Files())[j]
      ensures r == if guest.Some? then len else EFAULT
      ensures r < 0 ==> Files()[i] == old(Files())[i]
      ensures r >= 0 ==> Files()[i] == Patched(old(Files())[i], off, guest.value)
    {
      hide Good, Owned, Layout.Parse, UsedSum, Content, Patched, Backed;
      ghost var m := arena.mem[..];
      NodeBounds(i);
      if off > nodes[i].size {
        ZeroTail(i, nodes[i].size, off);
      }
      if guest.None? {
        assert nodes == nodes[i := nodes[i].(size := nodes[i].size)];
        return EFAULT;
      }
      CopyIn(i, off, guest.value);
      PatchedContent(m, arena.mem[..], nodes[i], off, guest.value);
      SetSize(i, Grown(nodes[i].size, off + len));
      r := len;
    }

    /** fop_ftruncate_tmpfs */
    method Ftruncate(i: nat, length: nat) returns (r: int)
      requires Valid() && i < |nodes| && nodes[i].used
      modifies this, arena, arena.mem
      ensures Valid() && |nodes| == old(|nodes|)
      ensures nodes ==
          old(nodes)[i := old(nodes)[i].(data := nodes[i].data, cap := nodes[i].cap, size := nodes[i].size)]
      ensures forall j :: 0 <= j < |nodes| && j != i ==> Files()[j] == old(Files())[j]
      ensures r == TruncateResult(old(HeapState()), old(nodes)[i], poolSize - ALIGN, length)
      ensures r == 0 ==> Files()[i] == Truncated(old(Files())[i], length)
      ensures r != 0 ==> Files()[i] == old(Files())[i]
    {
      hide Good, Owned, Layout.Parse, UsedSum, Content, Truncated, CanReserve;
      if nodes[i].IsDir() {
        return EISDIR;
      }
      if length > 0xFFFF_FFFF {
        return EFBIG;
      }
      NodeBounds(i);
      ghost var m := arena.mem[..];
      ghost var f := Files()[i];
      if length > nodes[i].size {
        var ok := Reserve(i, length);
        if !ok {
          return EFBIG;
        }
        m := arena.mem[..];
        NodeBounds(i);
        ZeroTail(i, nodes[i].size, length);
      }
      TruncatedContent(m, arena.mem[..], nodes[i], length);
      SetSize(i, length);
      r := 0;
    }

    /** fop_pread_tmpfs: the bytes handed to the guest, or an error. */
    method Pread(i: nat, len: nat, off: nat, writable: bool) returns (r: int, d: seq<byte>)
      requires Valid() && i < |nodes| && nodes[i].used
      ensures r >= 0 ==> r == |d| && r == Available(|Files()[i]|, off, len)
      ensures r >= 0 ==> forall k :: 0 <= k < r ==> d[k] == Files()[i][off + k]
      ensures r >= 0 ==> d == Window(Files()[i], off, len)
      ensures r < 0 <==> nodes[i].IsDir() || (!writable && off < nodes[i].size)
      ensures r < 0 ==> r == (if nodes[i].IsDir() then EISDIR else EFAULT)
    {
      hide Good, Owned, Layout.Parse, UsedSum;
      var t := nodes[i];
      d := [];
      if t.IsDir() {
        return EISDIR, d;
      }
      NodeBounds(i);
      if off >= t.size {
        return 0, d;
      }
      var n := t.size - off;
      if n > len {
        n := len;
      }
      if !writable {
        return EFAULT, d;
      }
      d := arena.mem[t.data + off..t.data + off + n];
      assert NodeOk(t);
      ContentSlice(arena.mem[..], t, off, n);
      r := n;
    }

    /** lxp_wfs_create: -1 when the table is full or the path is too long. */
    method Create(path: string, mode: uint32, pathMax: nat) returns (i: int)
      requires Valid()
      modifies this`nodes
      ensures Valid()
      ensures i == -1 ==> nodes == old(nodes)
      ensures i == -1 <==> |path| >= pathMax || forall j :: 0 <= j < |old(nodes)| ==> old(nodes)[j].used
      ensures i != -1 ==> 0 <= i < |old(nodes)| && !old(nodes)[i].used
                          && (forall j :: 0 <= j < i ==> old(nodes)[j].used)
                          && nodes == old(nodes)[i := Node(path, mode, 0, 0, 0, true, 0, true)]
                          && Files() == old(Files())
    {
      hide Good, Layout.Parse, UsedSum;
      if |path| >= pathMax {
        return -1;
      }
      i := 0;
      while i < |nodes|
        invariant 0 <= i <= |nodes|
        invariant forall j :: 0 <= j < i ==> nodes[j].used
      {
        if !nodes[i].used {
          ghost var before := nodes;
          assert NodeOk(nodes[i]);
          nodes := nodes[i := Node(path, mode, 0, 0, 0, true, 0, true)];
          if ready {
            SameBytes(arena.Blocks(), arena.mem[..], before, nodes);
          }
          return;
        }
        i := i + 1;
      }
      i := -1;
    }

    /** lxp_wfs_open: pin node i. */
    method Open(i: int) returns (ok: bool)
      requires Valid()
      modifies this`nodes
      ensures Valid() && Files() == old(Files())
      ensures ok <==> 0 <= i < |old(nodes)| && old(nodes)[i].used && old(nodes)[i].refs != 0xFFFF
      ensures nodes == if ok then old(nodes)[i := old(nodes)[i].(refs := old(nodes)[i].refs + 1)] else old(nodes)
    {
      hide Good, Layout.Parse, UsedSum, Owned, FilesOf;
      ok := 0 <= i < |nodes| && nodes[i].used && nodes[i].refs != 0xFFFF;
      if ok {
        SetMeta(i, nodes[i].(refs := nodes[i].refs + 1));
      }
    }

    /** Store fields that do not say where the bytes are. */
    method SetMeta(i: nat, n: Node)
      requires Valid() && i < |nodes| && NodeOk(n)
      requires n.data == nodes[i].data && n.cap == nodes[i].cap && n.size == nodes[i].size
      modifies this`nodes
      ensures Valid() && Files() == old(Files()) && nodes == old(nodes)[i := n]
    {
      hide Good, Layout.Parse, UsedSum, Owned;
      ghost var before := nodes;
      nodes := nodes[i := n];
      if ready {
        SameBytes(arena.Blocks(), arena.mem[..], before, nodes);
      }
    }

    /** wfs_reclaim: free the bytes and clear the node. */
    method Reclaim(i: nat)
      requires Valid() && i < |nodes|
      modifies this`nodes, arena, arena.mem
      ensures Valid() && nodes == old(nodes)[i := EMPTY]
      ensures forall j :: 0 <= j < |nodes| && j != i ==> Files()[j] == old(Files())[j]
    {
      hide Good, Layout.Parse, UsedSum, Owned, Content, FreeCall, Heap.KeepsLive;
      ghost var m, before := arena.mem[..], nodes;
      if nodes[i].data != 0 {
        ghost var s := arena.Abs();
        ReclaimOwned(s, nodes, i, pool, pool + poolSize);
        arena.Free(nodes[i].data);
        KeptFiles(m, arena.mem[..], s.blocks, nodes, i);
        nodes := nodes[i := EMPTY];
      } else {
        nodes := nodes[i := EMPTY];
        if ready {
          assert NodeOk(before[i]);
          SameBytes(arena.Blocks(), arena.mem[..], before, nodes);
        }
      }
    }

    /** lxp_wfs_close: the last close of an unlinked node reclaims it. */
    method Close(i: int)
      requires Valid()
      modifies this`nodes, arena, arena.mem
      ensures Valid() && |nodes| == |old(nodes)|
      ensures var live := 0 <= i < |old(nodes)| && old(nodes)[i].used && old(nodes)[i].refs > 0;
              nodes == (if !live then old(nodes)
                        else old(nodes)[i := Closed(old(nodes)[i])])
      ensures forall j :: 0 <= j < |nodes| && (nodes[j].used || !old(nodes)[j].used) ==> Files()[j] == old(Files())[j]
    {
      hide Good, Layout.Parse, UsedSum, Owned, Content;
      if 0 <= i < |nodes| && nodes[i].used && nodes[i].refs > 0 {
        assert NodeOk(nodes[i]);
        if nodes[i].refs == 1 && !nodes[i].linked {
          Reclaim(i);
        } else {
          SetMeta(i, nodes[i].(refs := nodes[i].refs - 1));
        }
      }
    }

    /** lxp_wfs_free: drop the name; bytes stay while an open description remains. */
    method Unlink(i: int)
      requires Valid()
      modifies this`nodes, arena, arena.mem
      ensures Valid() && |nodes| == |old(nodes)|
      ensures nodes == if 0 <= i < |old(nodes)| && old(nodes)[i].used
                       then old(nodes)[i := Unlinked(old(nodes)[i])] else old(nodes)
      ensures forall j :: 0 <= j < |nodes| && (nodes[j].used || !old(nodes)[j].used) ==> Files()[j] == old(Files())[j]
    {
      hide Good, Layout.Parse, UsedSum, Owned, Content;
      if 0 <= i < |nodes| && nodes[i].used {
        assert NodeOk(nodes[i]);
        if nodes[i].refs == 0 {
          Reclaim(i);
        } else {
          SetMeta(i, Unlinked(nodes[i]));
        }
      }
    }

    /** lxp_wfs_find, as an index or -1. */
    method Find(path: string) returns (i: int)
      ensures if FindSpec(nodes, path) < |nodes| then i == FindSpec(nodes, path) else i == -1
    {
      i := 0;
      while i < |nodes|
        invariant 0 <= i <= |nodes|
        invariant forall j :: 0 <= j < i ==> !(Named(nodes[j]) && nodes[j].path == path)
      {
        if nodes[i].used && nodes[i].linked && nodes[i].path == path {
          return;
        }
        i := i + 1;
      }
      i := -1;
    }

    method Occupied(dir: string) returns (b: bool)
      ensures b == HasDescendant(nodes, dir)
    {
      var j := 0;
      while j < |nodes|
        invariant 0 <= j <= |nodes|
        invariant forall k :: 0 <= k < j ==>
            !(Named(nodes[k]) && nodes[k].path != dir && Path.Under(nodes[k].path, dir) != 0)
      {
        if nodes[j].used && nodes[j].linked && nodes[j].path != dir && Path.Under(nodes[j].path, dir) != 0 {
          return true;
        }
        j := j + 1;
      }
      b := false;
    }

    method DescendantsFit(i: nat, name: string, pathMax: nat) returns (b: bool)
      requires i < |nodes|
      ensures b == AllFit(nodes, i, name, pathMax)
    {
      var j := 0;
      while nodes[i].IsDir() && j < |nodes|
        invariant 0 <= j <= |nodes|
        invariant forall k :: 0 <= k < j && k != i && Below(nodes[k], nodes[i]) ==>
                                |nodes[k].path| - |nodes[i].path| + |name| < pathMax
      {
        if j != i && nodes[j].used && nodes[j].linked && Path.Under(nodes[j].path, nodes[i].path) != 0 &&
           |nodes[j].path| - |nodes[i].path| + |name| >= pathMax {
          assert Below(nodes[j], nodes[i]);
          return false;
        }
        j := j + 1;
      }
      b := true;
    }

    /** The loop that gives every descendant its place below the new name, then the node itself. */
    method MovePaths(i: nat, name: string)
      requires Valid() && i < |nodes| && nodes[i].used
      modifies this`nodes
      ensures Valid() && Files() == old(Files()) && nodes == RenamePaths(old(nodes), i, name)
    {
      hide Good, Layout.Parse, UsedSum, Owned, FilesOf, Backed;
      ghost var was := nodes;
      var j := 0;
      while nodes[i].IsDir() && j < |nodes|
        invariant 0 <= j <= |nodes| == |was| && Valid() && Files() == old(Files())
        invariant nodes[i] == was[i]
        invariant forall k :: 0 <= k < j && k != i ==> nodes[k] == RenamedAt(was, i, name, k)
        invariant forall k :: j <= k < |nodes| ==> nodes[k] == was[k]
      {
        if j != i && nodes[j].used && nodes[j].linked && Path.Under(nodes[j].path, nodes[i].path) != 0 {
          assert NodeOk(nodes[j]);
          SetMeta(j, nodes[j].(path := name + nodes[j].path[|nodes[i].path|..]));
        }
        j := j + 1;
      }
      assert NodeOk(nodes[i]);
      SetMeta(i, nodes[i].(path := name));
      assert forall k :: 0 <= k < |was| ==> nodes[k] == RenamedAt(was, i, name, k);
    }

    /** lxp_wfs_rename */
    method Rename(i: nat, name: string, pathMax: nat) returns (r: int)
      requires Valid() && i < |nodes| && Named(nodes[i])
      modifies this`nodes, arena, arena.mem
      ensures Valid() && |nodes| == |old(nodes)|
      ensures r == RenameError(old(nodes), i, name, pathMax)
      ensures r != 0 || old(nodes)[i].path == name ==> nodes == old(nodes) && Files() == old(Files())
      ensures r == 0 && old(nodes)[i].path != name ==> nodes == RenamePaths(Cleared(old(nodes), name), i, name)
      ensures forall j :: 0 <= j < |nodes| && (nodes[j].used || !old(nodes)[j].used) ==> Files()[j] == old(Files())[j]
    {
      hide Good, Layout.Parse, UsedSum, Owned, FilesOf, Backed, RenamePaths, AllFit, HasDescendant, Path.Under;
      var node := nodes[i];
      if node.path == name {
        return 0;
      }
      if |name| >= pathMax {
        return ENAMETOOLONG;
      }
      if node.IsDir() && Path.Under(name, node.path) != 0 {
        return EINVAL;
      }
      var di := Find(name);
      var occupied := Occupied(name);
      if di >= 0 && occupied {
        return ENOTEMPTY;
      }
      var fit := DescendantsFit(i, name, pathMax);
      if !fit {
        return ENAMETOOLONG;
      }
      if di >= 0 {
        Unlink(di);
      }
      MovePaths(i, name);
      r := 0;
    }
  }
}
