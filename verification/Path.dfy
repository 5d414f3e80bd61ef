/** Path resolution: the in-place normaliser, relative joins, symlink targets and the
    path-prefix tests, against a component walk. */
module Path {
  import opened Bytes

  datatype Result = Done(len: nat) | NameTooLong

  // ---- components --------------------------------------------------------------

  /** Length of the leading run of non-slash characters. */
  function SegLen(s: string): (n: nat)
    ensures n <= |s|
    ensures forall k :: 0 <= k < n ==> s[k] != '/'
    ensures n < |s| ==> s[n] == '/'
  {
    if s == "" || s[0] == '/' then 0 else 1 + SegLen(s[1..])
  }

  /** The non-empty components of a path. */
  function Comps(s: string): seq<string>
    decreases |s|
  {
    if s == "" then []
    else if s[0] == '/' then Comps(s[1..])
    else [s[..SegLen(s)]] + Comps(s[SegLen(s)..])
  }

  predicate Segment(c: string) { c != "" && forall k :: 0 <= k < |c| ==> c[k] != '/' }

  predicate Name(c: string) { Segment(c) && c != "." && c != ".." }

  ghost predicate Names(cs: seq<string>) { forall i :: 0 <= i < |cs| ==> Name(cs[i]) }

  /** "/a/b" for [a, b]; empty for []. */
  function Join(cs: seq<string>): string {
    if cs == [] then "" else Join(cs[..|cs| - 1]) + "/" + cs[|cs| - 1]
  }

  function Render(cs: seq<string>): string { if cs == [] then "/" else Join(cs) }

  ghost predicate Canonical(p: string) { exists cs :: Names(cs) && p == Render(cs) }

  function Pop(stack: seq<string>): seq<string> { if stack == [] then [] else stack[..|stack| - 1] }

  /** Fold components over a stack: "." stays, ".." pops (the root absorbs it), a name pushes.
      None as soon as a push would not leave room for its NUL in `cap` characters. */
  function Walk(stack: seq<string>, cs: seq<string>, cap: nat): (r: Option<seq<string>>)
    decreases |cs|
  {
    if cs == [] then Some(stack)
    else if cs[0] == "." then Walk(stack, cs[1..], cap)
    else if cs[0] == ".." then Walk(Pop(stack), cs[1..], cap)
    else if |Join(stack)| + 1 + |cs[0]| >= cap then None
    else Walk(stack + [cs[0]], cs[1..], cap)
  }

  // ---- component lemmas -----------------------------------------------------------

  lemma {:induction false} SegLenOf(c: string, rest: string)
    requires Segment(c) || c == ""
    requires rest == "" || rest[0] == '/'
    ensures SegLen(c + rest) == |c|
  {
    if c == "" {
      assert c + rest == rest;
    } else {
      assert (c + rest)[1..] == c[1..] + rest;
      SegLenOf(c[1..], rest);
    }
  }

  lemma {:induction false} CompsSegments(s: string)
    ensures forall i :: 0 <= i < |Comps(s)| ==> Segment(Comps(s)[i])
    decreases |s|
  {
    if s != "" {
      if s[0] == '/' {
        CompsSegments(s[1..]);
      } else {
        CompsSegments(s[SegLen(s)..]);
      }
    }
  }

  lemma CompsFirst(c: string, rest: string)
    requires Segment(c) && (rest == "" || rest[0] == '/')
    ensures Comps(c + rest) == [c] + Comps(rest)
  {
    SegLenOf(c, rest);
    assert (c + rest)[..|c|] == c && (c + rest)[|c|..] == rest;
  }

  /** Splitting at a slash splits the component list. */
  lemma {:induction false} CompsJoin(a: string, b: string)
    ensures Comps(a + "/" + b) == Comps(a) + Comps(b)
    decreases |a|
  {
    var w := a + "/" + b;
    if a == "" {
      assert w[1..] == b;
    } else if a[0] == '/' {
      assert w[1..] == a[1..] + "/" + b;
      CompsJoin(a[1..], b);
    } else {
      var n := SegLen(a);
      var c, r := a[..n], a[n..];
      assert a == c + r && w == c + (r + "/" + b) && Segment(c);
      hide Comps, SegLen;
      CompsFirst(c, r);
      CompsFirst(c, r + "/" + b);
      CompsJoin(r, b);
      assert [c] + (Comps(r) + Comps(b)) == ([c] + Comps(r)) + Comps(b);
    }
  }

  lemma CompsOne(c: string)
    requires Segment(c)
    ensures Comps(c) == [c]
  {
    CompsFirst(c, "");
    assert c + "" == c && [c] + Comps("") == [c];
  }

  /** Rendering and splitting are inverse on segment lists. */
  lemma {:induction false} CompsOfJoin(cs: seq<string>)
    requires forall i :: 0 <= i < |cs| ==> Segment(cs[i])
    ensures Comps(Join(cs)) == cs
  {
    if cs != [] {
      var k := |cs| - 1;
      CompsOfJoin(cs[..k]);
      CompsJoin(Join(cs[..k]), cs[k]);
      CompsOne(cs[k]);
    }
  }

  lemma CompsOfRender(cs: seq<string>)
    requires forall i :: 0 <= i < |cs| ==> Segment(cs[i])
    ensures Comps(Render(cs)) == cs
  {
    CompsOfJoin(cs);
    if cs == [] {
      assert "/"[1..] == "";
    }
  }

  lemma {:induction false} JoinAppend(a: seq<string>, b: seq<string>)
    ensures Join(a + b) == Join(a) + Join(b)
  {
    if b == [] {
      assert a + b == a;
    } else {
      var k := |b| - 1;
      assert (a + b)[..|a + b| - 1] == a + b[..k];
      JoinAppend(a, b[..k]);
    }
  }

  lemma {:induction false} WalkAppend(stack: seq<string>, a: seq<string>, b: seq<string>, cap: nat)
    ensures Walk(stack, a + b, cap) ==
            (match Walk(stack, a, cap) case None => None case Some(mid) => Walk(mid, b, cap))
    decreases |a|
  {
    if a == [] {
      assert a + b == b;
    } else {
      assert (a + b)[1..] == a[1..] + b;
      if a[0] == "." {
        WalkAppend(stack, a[1..], b, cap);
      } else if a[0] == ".." {
        WalkAppend(Pop(stack), a[1..], b, cap);
      } else {
        WalkAppend(stack + [a[0]], a[1..], b, cap);
      }
    }
  }

  lemma JoinPush(stack: seq<string>, c: string)
    ensures Join(stack + [c]) == Join(stack) + "/" + c
  {
    assert (stack + [c])[..|stack|] == stack;
  }

  lemma JoinPop(stack: seq<string>)
    ensures |Join(Pop(stack))| <= |Join(stack)|
  {
  }

  /** The walk keeps its stack canonical and its rendering inside the buffer. */
  lemma {:induction false} WalkKeeps(stack: seq<string>, cs: seq<string>, cap: nat)
    requires Names(stack) && |Join(stack)| < cap
    requires forall i :: 0 <= i < |cs| ==> Segment(cs[i])
    ensures var r := Walk(stack, cs, cap); r.Some? ==> Names(r.value) && |Join(r.value)| < cap
    decreases |cs|
  {
    hide Join, Segment;
    if cs != [] {
      if cs[0] == "." {
        WalkKeeps(stack, cs[1..], cap);
      } else if cs[0] == ".." {
        JoinPop(stack);
        WalkKeeps(Pop(stack), cs[1..], cap);
      } else if |Join(stack)| + 1 + |cs[0]| < cap {
        JoinPush(stack, cs[0]);
        WalkKeeps(stack + [cs[0]], cs[1..], cap);
      }
    }
  }

  /** Walking names that fit only pushes them. */
  lemma {:induction false} WalkNames(stack: seq<string>, cs: seq<string>, cap: nat)
    requires Names(cs) && |Join(stack + cs)| < cap
    ensures Walk(stack, cs, cap) == Some(stack + cs)
    decreases |cs|
  {
    if cs == [] {
      assert stack + cs == stack;
    } else {
      var push := stack + [cs[0]];
      assert push + cs[1..] == stack + cs;
      JoinAppend(push, cs[1..]);
      assert push[..|stack|] == stack;
      WalkNames(push, cs[1..], cap);
    }
  }

  lemma WalkAll(cs: seq<string>, cap: nat)
    requires Names(cs) && |Join(cs)| < cap
    ensures Walk([], cs, cap) == Some(cs)
  {
    assert [] + cs == cs;
    WalkNames([], cs, cap);
  }

  // ---- the code --------------------------------------------------------------------

  /** Where the pop loop of normalize_abs stops: at the slash before the last component. */
  lemma PopStops(stack: seq<string>, ol: nat)
    requires stack != [] && Segment(stack[|stack| - 1])
    requires ol <= |Join(stack)|
    requires forall k :: ol <= k < |Join(stack)| ==> Join(stack)[k] != '/'
    requires ol == 0 || Join(stack)[ol - 1] == '/'
    ensures ol == |Join(stack[..|stack| - 1])| + 1
  {
    var base, c := Join(stack[..|stack| - 1]), stack[|stack| - 1];
    var w := Join(stack);
    assert w == base + "/" + c;
    assert w[|base|] == '/';
  }

  method SkipSlashes(input: string, s: nat) returns (t: nat)
    requires s <= |input|
    ensures s <= t <= |input| && Comps(input[t..]) == Comps(input[s..])
    ensures t < |input| ==> input[t] != '/'
  {
    t := s;
    while t < |input| && input[t] == '/'
      invariant s <= t <= |input| && Comps(input[t..]) == Comps(input[s..])
    {
      assert input[t..][1..] == input[t + 1..];
      t := t + 1;
    }
  }

  method SegmentEnd(input: string, s: nat) returns (t: nat)
    requires s < |input| && input[s] != '/'
    ensures s < t <= |input| && Segment(input[s..t])
    ensures Comps(input[s..]) == [input[s..t]] + Comps(input[t..])
  {
    t := s;
    while t < |input| && input[t] != '/'
      invariant s <= t <= |input|
      invariant forall k :: s <= k < t ==> input[k] != '/'
    {
      t := t + 1;
    }
    var c := input[s..t];
    assert forall k :: 0 <= k < |c| ==> c[k] == input[s + k];
    assert input[s..] == c + input[t..];
    SegLenOf(c, input[t..]);
    assert input[s..][..|c|] == c && input[s..][|c|..] == input[t..];
  }

  /** Drop the last component and its slash. */
  method PopName(out: array<char>, ol: nat, ghost stack: seq<string>) returns (n: nat)
    requires ol <= out.Length && out[..ol] == Join(stack) && Names(stack)
    ensures n <= ol && out[..n] == Join(Pop(stack))
  {
    n := ol;
    while n > 0 && out[n - 1] != '/'
      invariant 0 <= n <= ol
      invariant forall k :: n <= k < ol ==> out[k] != '/'
    {
      n := n - 1;
    }
    if stack != [] {
      assert forall k :: 0 <= k < ol ==> out[k] == Join(stack)[k];
      PopStops(stack, n);
    }
    if n > 0 {
      n := n - 1;
    }
    assert out[..n] == out[..ol][..n];
  }

  /** Append "/c" and a NUL. */
  method PushName(out: array<char>, ol: nat, c: string) returns (n: nat)
    requires ol + 1 + |c| < out.Length
    modifies out
    ensures n == ol + 1 + |c| && out[..n] == old(out[..ol]) + "/" + c && out[n] == '\0'
  {
    out[ol] := '/';
    var i := 0;
    while i < |c|
      invariant 0 <= i <= |c|
      invariant out[..ol + 1 + i] == old(out[..ol]) + "/" + c[..i]
    {
      out[ol + 1 + i] := c[i];
      i := i + 1;
    }
    n := ol + 1 + |c|;
    out[n] := '\0';
  }

  lemma RootStack()
    ensures Join([]) == "" && Names([])
  {
  }

  lemma RenderOf(stack: seq<string>)
    ensures Render(stack) == if Join(stack) == "" then "/" else Join(stack)
  {
  }

  lemma EndOfComps()
    ensures Comps("") == []
  {
  }

  lemma WalkOne(stack: seq<string>, c: string, rest: seq<string>, cap: nat)
    ensures Walk(stack, [c] + rest, cap) ==
            if c == "." then Walk(stack, rest, cap)
            else if c == ".." then Walk(Pop(stack), rest, cap)
            else if |Join(stack)| + 1 + |c| >= cap then None
            else Walk(stack + [c], rest, cap)
  {
    assert ([c] + rest)[1..] == rest;
  }

  /** One component taken into the output: stay, pop or push. */
  method EnterSegment(out: array<char>, ol: nat, c: string, ghost stack: seq<string>)
      returns (n: nat, fits: bool, ghost next: seq<string>)
    requires Segment(c) && ol < out.Length && out[ol] == '\0' && Names(stack) && out[..ol] == Join(stack)
    modifies out
    ensures next == if c == "." then stack else if c == ".." then Pop(stack) else stack + [c]
    ensures fits <==> c == "." || c == ".." || |Join(stack)| + 1 + |c| < out.Length
    ensures n < out.Length && (fits ==> out[n] == '\0' && Names(next) && out[..n] == Join(next))
  {
    hide Join;
    n, fits := ol, true;
    next := if c == "." then stack else if c == ".." then Pop(stack) else stack + [c];
    if |c| == 1 && c[0] == '.' {
      assert c == ".";
    } else if |c| == 2 && c[0] == '.' && c[1] == '.' {
      assert c == "..";
      n := PopName(out, ol, stack);
      out[n] := '\0';
    } else {
      fits := ol + 1 + |c| < out.Length;
      if fits {
        JoinPush(stack, c);
        n := PushName(out, ol, c);
      }
    }
  }

  /** normalize_abs: collapse `in` into the NUL-terminated buffer `out`. */
  method NormalizeAbs(input: string, out: array<char>) returns (r: Result)
    requires out.Length >= 2
    modifies out
    ensures r.NameTooLong? <==> Walk([], Comps(input), out.Length).None?
    ensures r.Done? ==> r.len < out.Length && out[r.len] == '\0'
                        && out[..r.len] == Render(Walk([], Comps(input), out.Length).value)
  {
    hide Comps, Join, Names;
    var ol, s := 0, 0;
    out[0] := '\0';
    ghost var stack: seq<string> := [];
    assert input[0..] == input;
    RootStack();
    assert out[..0] == [];
    while s < |input|
      invariant 0 <= s <= |input| && 0 <= ol < out.Length && out[ol] == '\0'
      invariant Names(stack) && out[..ol] == Join(stack)
      invariant Walk(stack, Comps(input[s..]), out.Length) == Walk([], Comps(input), out.Length)
      decreases |input| - s
    {
      s := SkipSlashes(input, s);
      if s == |input| {
        break;
      }
      var seg := s;
      s := SegmentEnd(input, s);
      ghost var was := stack;
      var fits;
      ol, fits, stack := EnterSegment(out, ol, input[seg..s], stack);
      WalkOne(was, input[seg..s], Comps(input[s..]), out.Length);
      if !fits {
        return NameTooLong;
      }
    }
    assert input[|input|..] == "";
    EndOfComps();
    RenderOf(stack);
    if ol == 0 {
      out[0], out[1] := '/', '\0';
      ol := 1;
    }
    r := Done(ol);
  }

  /** resolve_from: join a relative `input` onto `base` in a PATH_MAX buffer, then normalise. */
  method ResolveFrom(base: string, input: string, out: array<char>, pathMax: nat) returns (r: Result)
    requires out.Length >= 2 && pathMax >= 64
    modifies out
    ensures r.NameTooLong? <==>
        |Joined(base, input)| >= pathMax || Walk([], Comps(Joined(base, input)), out.Length).None?
    ensures r.Done? ==> r.len < out.Length && out[r.len] == '\0'
                        && out[..r.len] == Render(Walk([], Comps(Joined(base, input)), out.Length).value)
  {
    hide Walk, Comps, Render;
    var joined := new char[pathMax];
    var jl := 0;
    if input == "" || input[0] != '/' {
      var c := 0;
      while c < |base|
        invariant 0 <= c == jl <= |base| && jl + 2 <= pathMax
        invariant joined[..jl] == base[..c]
      {
        if jl + 2 >= pathMax {
          return NameTooLong;
        }
        joined[jl] := base[c];
        jl, c := jl + 1, c + 1;
      }
      joined[jl] := '/';
      jl := jl + 1;
    }
    ghost var prefix := joined[..jl];
    var c := 0;
    while c < |input|
      invariant 0 <= c <= |input| && jl == |prefix| + c && jl + 1 <= pathMax
      invariant joined[..jl] == prefix + input[..c]
    {
      if jl + 1 >= pathMax {
        return NameTooLong;
      }
      joined[jl] := input[c];
      jl, c := jl + 1, c + 1;
    }
    assert joined[..jl] == Joined(base, input);
    r := NormalizeAbs(joined[..jl], out);
  }

  function Joined(base: string, input: string): string {
    if input != "" && input[0] == '/' then input else base + "/" + input
  }

  /** lxp_path_link_target: the raw path a symlink names, in the directory of the link itself. */
  function LinkRaw(link: string, target: string): string {
    if target != "" && target[0] == '/' then target else link[..LastSlash(link)] + target
  }

  /** strrchr(link, '/') + 1, or 0 without a slash. */
  function LastSlash(s: string): (n: nat)
    ensures n <= |s|
    ensures n > 0 ==> s[n - 1] == '/'
    ensures forall k :: n <= k < |s| ==> s[k] != '/'
  {
    if s == "" then 0 else if s[|s| - 1] == '/' then |s| else LastSlash(s[..|s| - 1])
  }

  /** The characters before the first NUL: what a reader of the buffer as a C string sees. */
  function CString(s: string): (r: string)
    ensures |r| <= |s| && r == s[..|r|] && '\0' !in r && (|r| < |s| ==> s[|r|] == '\0')
  {
    if s == "" || s[0] == '\0' then "" else [s[0]] + CString(s[1..])
  }

  /** Joining to text without NUL cuts only the rest. */
  lemma {:induction false} CStringJoin(a: string, b: string)
    requires '\0' !in a
    ensures CString(a + b) == a + CString(b)
  {
    if a == "" {
      assert a + b == b;
    } else {
      assert (a + b)[1..] == a[1..] + b;
      CStringJoin(a[1..], b);
    }
  }

  /** target may hold NULs: the raw path is built from all of it, and read up to the first. */
  method LinkTarget(link: string, target: string, out: array<char>, pathMax: nat) returns (r: Result)
    requires out.Length >= 2 && pathMax >= 64
    modifies out
    ensures r.NameTooLong? <==> |LinkRaw(link, target)| >= pathMax || LinkWalk(link, target, out.Length).None?
    ensures r.Done? ==> r.len < out.Length && out[r.len] == '\0'
                        && out[..r.len] == Render(LinkWalk(link, target, out.Length).value)
  {
    var raw := "";
    assert raw + target == target;
    if target == "" || target[0] != '/' {
      var rl := LastSlash(link);
      if rl >= pathMax {
        return NameTooLong;
      }
      raw := link[..rl];
    }
    if |raw| + |target| >= pathMax {
      return NameTooLong;
    }
    r := NormalizeAbs(CString(raw + target), out);
  }

  function LinkWalk(link: string, target: string, cap: nat): Option<seq<string>> {
    Walk([], Comps(CString(LinkRaw(link, target))), cap)
  }

  /** lxp_path_under: the matched prefix length, or 0. */
  function Under(path: string, prefix: string): (n: nat)
    ensures n <= |path|
  {
    if prefix == "/" then (if path != "" && path[0] == '/' then 1 else 0)
    else if prefix == "" || |path| < |prefix| || path[..|prefix|] != prefix then 0
    else if |path| == |prefix| || path[|prefix|] == '/' then |prefix| else 0
  }

  /** lxp_path_child_name: the direct child of dir that path names, if it is one. */
  function ChildName(dir: string, path: string): Option<string> {
    if dir == "/" then
      if |path| < 2 || path[0] != '/' then None
      else if '/' in path[1..] then None else Some(path[1..])
    else if |path| <= |dir| || path[..|dir|] != dir || path[|dir|] != '/' then None
    else
      var name := path[|dir| + 1..];
      if name != "" && '/' !in name then Some(name) else None
  }

  // ---- main results ------------------------------------------------------------------

  /** What normalize_abs computes, as a function. */
  function Normal(input: string, cap: nat): Option<string> {
    var w := Walk([], Comps(input), cap);
    if w.None? then None else Some(Render(w.value))
  }

  /** The walk with no room limit. */
  function Fold(stack: seq<string>, cs: seq<string>): seq<string>
    decreases |cs|
  {
    if cs == [] then stack
    else Fold(if cs[0] == "." then stack else if cs[0] == ".." then Pop(stack) else stack + [cs[0]], cs[1..])
  }

  /** The push of component k, onto what the components before it leave, does not fit. */
  ghost predicate Overflows(stack: seq<string>, cs: seq<string>, cap: nat, k: nat) {
    k < |cs| && cs[k] != "." && cs[k] != ".." && |Join(Fold(stack, cs[..k]))| + 1 + |cs[k]| >= cap
  }

  /** ENAMETOOLONG is reported exactly when some intermediate push does not fit, even if a later
      ".." would have shortened the path again; otherwise the result is the unbounded fold. */
  lemma {:induction false} TooLongIff(stack: seq<string>, cs: seq<string>, cap: nat)
    ensures Walk(stack, cs, cap).None? <==> exists k: nat :: Overflows(stack, cs, cap, k)
    ensures Walk(stack, cs, cap).Some? ==> Walk(stack, cs, cap).value == Fold(stack, cs)
    decreases |cs|
  {
    if cs != [] {
      var next := if cs[0] == "." then stack else if cs[0] == ".." then Pop(stack) else stack + [cs[0]];
      assert cs[..0] == [];
      if Overflows(stack, cs, cap, 0) {
      } else {
        TooLongIff(next, cs[1..], cap);
        forall k: nat ensures Overflows(next, cs[1..], cap, k) <==> Overflows(stack, cs, cap, k + 1) {
          if k + 1 < |cs| {
            assert cs[..k + 1][1..] == cs[1..][..k];
          }
        }
        if Walk(stack, cs, cap).None? {
          var k: nat :| Overflows(next, cs[1..], cap, k);
          assert Overflows(stack, cs, cap, k + 1);
        } else {
          forall k: nat ensures !Overflows(stack, cs, cap, k) {
            if k > 0 {
              assert !Overflows(next, cs[1..], cap, k - 1);
            }
          }
        }
      }
    }
  }

  /** A name and the ".." after it cancel, wherever they stand; "." can be left out; ".." at the root
      does nothing; names alone stay. As every list of components comes down to names by these four
      rules, they fix what normalising means. */
  lemma CancelRules(stack: seq<string>, a: seq<string>, c: string, b: seq<string>, cap: nat)
    requires Name(c)
    ensures Walk(stack, a + [c, ".."] + b, cap).Some? ==>
              Walk(stack, a + [c, ".."] + b, cap) == Walk(stack, a + b, cap)
    ensures Walk(stack, a + ["."] + b, cap) == Walk(stack, a + b, cap)
    ensures Walk([], [".."] + b, cap) == Walk([], b, cap)
    ensures Names(a) && |Join(a)| < cap ==> Walk([], a, cap) == Some(a)
  {
    assert a + [c, ".."] + b == a + ([c, ".."] + b) && a + ["."] + b == a + (["."] + b);
    WalkAppend(stack, a, [c, ".."] + b, cap);
    WalkAppend(stack, a, ["."] + b, cap);
    WalkAppend(stack, a, b, cap);
    if Walk(stack, a, cap).Some? {
      var st := Walk(stack, a, cap).value;
      WalkOne(st, c, [".."] + b, cap);
      assert [c, ".."] + b == [c] + ([".."] + b);
      WalkOne(st + [c], "..", b, cap);
      assert (st + [c])[..|st|] == st;
      WalkOne(st, ".", b, cap);
    }
    WalkOne([], "..", b, cap);
    if Names(a) && |Join(a)| < cap { WalkAll(a, cap); }
  }

  /** "p/c/../q" and "p/q" name the same file, if the detour fits the buffer. */
  lemma DotDotUndoes(p: string, c: string, q: string, cap: nat)
    requires Name(c) && Normal(p + "/" + c + "/../" + q, cap).Some?
    ensures Normal(p + "/" + c + "/../" + q, cap) == Normal(p + "/" + q, cap)
  {
    hide Walk, Comps;
    assert p + "/" + c + "/../" + q == (p + "/" + c + "/" + "..") + "/" + q;
    CompsJoin(p + "/" + c + "/" + "..", q);
    CompsJoin(p + "/" + c, "..");
    CompsJoin(p, c);
    CompsJoin(p, q);
    CompsOne(c);
    CompsOne("..");
    assert Comps(p) + [c] + [".."] + Comps(q) == Comps(p) + [c, ".."] + Comps(q);
    CancelRules([], Comps(p), c, Comps(q), cap);
  }

  lemma NormalCanonical(input: string, cap: nat)
    requires cap >= 2 && Normal(input, cap).Some?
    ensures Canonical(Normal(input, cap).value) && |Normal(input, cap).value| < cap
  {
    CompsSegments(input);
    WalkKeeps([], Comps(input), cap);
  }

  /** Normalising is idempotent, and canonical paths are its fixed points. */
  lemma NormalIdempotent(input: string, cap: nat)
    requires cap >= 2 && Normal(input, cap).Some?
    ensures Normal(Normal(input, cap).value, cap) == Normal(input, cap)
  {
    CompsSegments(input);
    WalkKeeps([], Comps(input), cap);
    var st := Walk([], Comps(input), cap).value;
    CompsOfRender(st);
    WalkAll(st, cap);
  }

  /** An absolute path, given directly or as a symlink's target, means the same wherever it is used. */
  lemma AbsoluteAlone(base: string, link: string, path: string, cap: nat)
    requires path != "" && path[0] == '/'
    ensures Walk([], Comps(Joined(base, path)), cap) == Walk([], Comps(path), cap)
    ensures LinkWalk(link, path, cap) == Walk([], Comps(CString(path)), cap)
  {
  }

  /** A relative path is resolved by walking on from the components of its canonical base. */
  lemma RelativeContinues(st: seq<string>, input: string, cap: nat)
    requires Names(st) && |Join(st)| < cap && (input == "" || input[0] != '/')
    ensures Walk([], Comps(Joined(Render(st), input)), cap) == Walk(st, Comps(input), cap)
  {
    CompsJoin(Render(st), input);
    CompsOfRender(st);
    WalkAppend([], st, Comps(input), cap);
    WalkAll(st, cap);
  }

  /** A relative symlink target, read up to its first NUL, is resolved from the directory that holds
      the link; the link's own name is a C string. */
  lemma LinkContinues(st: seq<string>, name: string, target: string, cap: nat)
    requires Names(st + [name]) && |Join(st)| < cap && (target == "" || target[0] != '/')
    requires '\0' !in Render(st + [name])
    ensures LinkWalk(Render(st + [name]), target, cap) == Walk(st, Comps(CString(target)), cap)
  {
    var link := Render(st + [name]);
    JoinPush(st, name);
    assert Name((st + [name])[|st|]);
    var dir := Join(st);
    assert link == dir + "/" + name;
    LastSlashAt(dir, name);
    hide LastSlash, Comps, Join;
    assert link[..|dir| + 1] == dir + "/";
    CStringJoin(dir + "/", target);
    assert CString(LinkRaw(link, target)) == dir + "/" + CString(target);
    CompsJoin(dir, CString(target));
    assert forall i :: 0 <= i < |st| ==> st[i] == (st + [name])[i];
    CompsOfJoin(st);
    WalkAppend([], st, Comps(CString(target)), cap);
    WalkAll(st, cap);
  }

  lemma LastSlashAt(dir: string, name: string)
    requires Segment(name)
    ensures LastSlash(dir + "/" + name) == |dir| + 1
  {
    var w := dir + "/" + name;
    var n := LastSlash(w);
    assert w[|dir|] == '/';
  }

  /** On canonical paths lxp_path_under is component prefix. */
  lemma UnderIsPrefix(a: seq<string>, b: seq<string>)
    requires Names(a) && Names(b)
    ensures Under(Render(a), Render(b)) != 0 <==> b <= a
  {
    if b == [] {
      RenderSlash(a);
    } else if b <= a {
      UnderOfPrefix(a, b);
    } else if Under(Render(a), Render(b)) != 0 {
      PrefixOfUnder(a, b);
    }
  }

  lemma RenderSlash(cs: seq<string>)
    ensures Render(cs) != "" && Render(cs)[0] == '/'
  {
    if cs != [] { JoinSlash(cs); }
  }

  lemma {:induction false} JoinSlash(cs: seq<string>)
    requires cs != []
    ensures |Join(cs)| > 0 && Join(cs)[0] == '/'
  {
    if |cs| > 1 { JoinSlash(cs[..|cs| - 1]); }
  }

  lemma UnderOfPrefix(a: seq<string>, b: seq<string>)
    requires Names(b) && b != [] && b <= a
    ensures Under(Render(a), Render(b)) == |Join(b)|
  {
    var rest := a[|b|..];
    assert a == b + rest;
    JoinAppend(b, rest);
    JoinSlash(b);
    assert |Join(b)| > 1 by { assert Name(b[|b| - 1]); }
    if rest != [] { JoinSlash(rest); }
  }

  /** A string prefix that ends at a component boundary is a component prefix. */
  lemma PrefixOfUnder(a: seq<string>, b: seq<string>)
    requires Names(a) && Names(b) && b != [] && Under(Render(a), Render(b)) != 0
    ensures b <= a
  {
    var pa, pb := Render(a), Render(b);
    assert |pb| > 1 by { JoinSlash(b); assert Name(b[|b| - 1]); }
    CompsOfRender(a);
    CompsOfRender(b);
    if |pa| == |pb| {
      assert pa == pb;
    } else {
      assert pa == pb + "/" + pa[|pb| + 1..];
      CompsJoin(pb, pa[|pb| + 1..]);
    }
  }

  /** On canonical paths lxp_path_child_name finds exactly the one-component extensions. */
  lemma ChildIsExtension(d: seq<string>, p: seq<string>)
    requires Names(d) && Names(p)
    ensures ChildName(Render(d), Render(p)).Some? <==> |p| == |d| + 1 && d <= p
    ensures ChildName(Render(d), Render(p)).Some? ==> ChildName(Render(d), Render(p)).value == p[|p| - 1]
  {
    if |p| == |d| + 1 && d <= p {
      assert p == d + [p[|d|]];
      JoinPush(d, p[|d|]);
      assert Name(p[|d|]);
      if d != [] { JoinSlash(d); assert |Join(d)| > 1 by { assert Name(d[|d| - 1]); } }
      assert Render(p) == Join(d) + "/" + p[|d|];
      assert Render(p)[|Join(d)| + 1..] == p[|d|];
    } else if ChildName(Render(d), Render(p)).Some? {
      ChildSplits(d, p, ChildName(Render(d), Render(p)).value);
    }
  }

  lemma ChildSplits(d: seq<string>, p: seq<string>, name: string)
    requires Names(d) && Names(p) && ChildName(Render(d), Render(p)) == Some(name)
    ensures p == d + [name]
  {
    assert d != [] ==> |Join(d)| > 1 by { if d != [] { JoinSlash(d); assert Name(d[|d| - 1]); } }
    assert Segment(name);
    assert Render(p) == Join(d) + "/" + name;
    CompsOfRender(p);
    CompsOfJoin(d);
    CompsJoin(Join(d), name);
    CompsOne(name);
  }
}
