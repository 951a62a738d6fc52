/** Canonical paths of fatcrypt.c: a stack of components, bounded buffers. */
module Path {
  import opened Wrappers

  const STACK_SLOTS: nat := 256
  const COMPONENT_MAX: nat := 255

  function Clip(cur: string, c: char): string {
    if |cur| < COMPONENT_MAX then cur + [c] else cur
  }

  /** The components of a path, the first of them begun with `cur`. */
  function Parts(p: string, cur: string): seq<string> {
    if p == [] then (if cur == [] then [] else [cur])
    else if p[0] == '/' then (if cur == [] then [] else [cur]) + Parts(p[1..], [])
    else Parts(p[1..], Clip(cur, p[0]))
  }

  predicate EndsInSlash(p: string) { p != [] && p[|p| - 1] == '/' }

  /** The stack after the components: "." changes nothing, ".." drops the last,
      and fails above the root. A component that a slash follows must not fill
      the last slot. */
  function Resolve(stack: seq<string>, comps: seq<string>, absolute: bool, slash: bool): Option<seq<string>>
    decreases |comps|
  {
    if comps == [] then Some(stack)
    else if comps[0] == "." then Resolve(stack, comps[1..], absolute, slash)
    else if comps[0] == ".." then
      if stack != [] then Resolve(stack[..|stack| - 1], comps[1..], absolute, slash)
      else if absolute then None
      else Resolve(stack, comps[1..], absolute, slash)
    else if |stack| + 1 >= STACK_SLOTS && (|comps| > 1 || slash) then None
    else Resolve(stack + [comps[0]], comps[1..], absolute, slash)
  }

  /** Plain components fit 256 slots, 255 of them if a slash follows the last. */
  lemma {:induction false} SlotLimit(stack: seq<string>, comps: seq<string>, absolute: bool, slash: bool)
    requires "." !in comps && ".." !in comps && |stack| < 256
    ensures var r := Resolve(stack, comps, absolute, slash);
      && (r.Some? <==> comps == [] || |stack| + |comps| + (if slash then 1 else 0) <= 256)
      && (r.Some? ==> r.value == stack + comps)
    decreases |comps|
  {
    if |comps| == 1 {
      assert comps == [comps[0]] && comps[1..] == [];
    } else if comps != [] && |stack| + 1 < 256 {
      SlotLimit(stack + [comps[0]], comps[1..], absolute, slash);
      assert stack + [comps[0]] + comps[1..] == stack + comps;
    }
  }

  function Join(stack: seq<string>): string {
    if stack == [] then "" else if |stack| == 1 then stack[0] else stack[0] + "/" + Join(stack[1..])
  }

  predicate Absolute(p: string) { p != [] && p[0] == '/' }

  function Relative(p: string): string { if Absolute(p) then p[1..] else p }

  function Spell(stack: seq<string>, absolute: bool): string {
    if absolute then "/" + Join(stack) else if stack == [] then "." else Join(stack)
  }

  /** The components left of a path, none if it leads above the root. */
  function Canonical(p: string): Option<seq<string>> {
    Resolve([], Parts(Relative(p), []), Absolute(p), EndsInSlash(Relative(p)))
  }

  // --- the cut at 255 characters ---------------------------------------------

  /** The components as they are spelled, without a limit. */
  function Pieces(p: string, cur: string): seq<string> {
    if p == [] then (if cur == [] then [] else [cur])
    else if p[0] == '/' then (if cur == [] then [] else [cur]) + Pieces(p[1..], [])
    else Pieces(p[1..], cur + [p[0]])
  }

  /** What Canonical would be without the limit. */
  function Uncut(p: string): Option<seq<string>> {
    Resolve([], Pieces(Relative(p), []), Absolute(p), EndsInSlash(Relative(p)))
  }

  function Cut(c: string): string { if |c| <= COMPONENT_MAX then c else c[..COMPONENT_MAX] }

  function CutAll(s: seq<string>): (r: seq<string>)
    ensures |r| == |s| && forall i :: 0 <= i < |s| ==> r[i] == Cut(s[i])
  {
    seq(|s|, i requires 0 <= i < |s| => Cut(s[i]))
  }

  lemma {:induction false} PartsCut(p: string, cur: string)
    ensures Parts(p, Cut(cur)) == CutAll(Pieces(p, cur))
  {
    assert Cut(cur) == [] <==> cur == [];
    assert CutAll([cur]) == [Cut(cur)];
    if p != [] {
      if p[0] == '/' {
        PartsCut(p[1..], []);
        CutAppend(if cur == [] then [] else [cur], Pieces(p[1..], []));
      } else {
        PartsCut(p[1..], cur + [p[0]]);
        CutNext(cur, p[0]);
      }
    }
  }

  lemma CutAppend(a: seq<string>, b: seq<string>)
    ensures CutAll(a + b) == CutAll(a) + CutAll(b)
  {
  }

  lemma CutNext(cur: string, c: char)
    ensures Clip(Cut(cur), c) == Cut(cur + [c])
  {
    if |cur| >= COMPONENT_MAX { assert (cur + [c])[..COMPONENT_MAX] == cur[..COMPONENT_MAX]; }
  }

  lemma {:induction false} ResolveCut(stack: seq<string>, comps: seq<string>, absolute: bool, slash: bool)
    ensures var r := Resolve(stack, comps, absolute, slash);
      Resolve(CutAll(stack), CutAll(comps), absolute, slash) == if r.Some? then Some(CutAll(r.value)) else None
    decreases |comps|
  {
    if comps != [] {
      var c, rest := comps[0], comps[1..];
      assert CutAll(comps)[1..] == CutAll(rest);
      if c == "." {
        ResolveCut(stack, rest, absolute, slash);
      } else if c == ".." {
        if stack != [] {
          ResolveCut(stack[..|stack| - 1], rest, absolute, slash);
          assert CutAll(stack)[..|stack| - 1] == CutAll(stack[..|stack| - 1]);
        } else {
          ResolveCut(stack, rest, absolute, slash);
        }
      } else {
        ResolveCut(stack + [c], rest, absolute, slash);
        assert CutAll(stack + [c]) == CutAll(stack) + [Cut(c)];
      }
    }
  }

  /** The canonical form is the uncut one with every component cut: it is the
      same if and only if none that is left has more than 255 characters. */
  lemma CanonicalIsCut(p: string)
    ensures Canonical(p) == if Uncut(p).Some? then Some(CutAll(Uncut(p).value)) else None
    ensures Canonical(p) == Uncut(p) <==>
      (Uncut(p).Some? ==> forall i :: 0 <= i < |Uncut(p).value| ==> |Uncut(p).value[i]| <= COMPONENT_MAX)
  {
    PartsCut(Relative(p), []);
    ResolveCut([], Pieces(Relative(p), []), Absolute(p), EndsInSlash(Relative(p)));
    assert CutAll([]) == [] && Cut([]) == [];
    if Uncut(p).Some? { CutSame(Uncut(p).value); }
  }

  lemma CutSame(s: seq<string>)
    ensures CutAll(s) == s <==> forall i :: 0 <= i < |s| ==> |s[i]| <= COMPONENT_MAX
  {
    if CutAll(s) == s {
      forall i | 0 <= i < |s| ensures |s[i]| <= COMPONENT_MAX { assert CutAll(s)[i] == Cut(s[i]); }
    }
  }

  lemma {:induction false} PiecesWord(w: string, cur: string)
    requires '/' !in w
    ensures Pieces(w, cur) == if cur + w == [] then [] else [cur + w]
  {
    if w == [] {
      assert cur + w == cur;
    } else {
      PiecesWord(w[1..], cur + [w[0]]);
      assert cur + [w[0]] + w[1..] == cur + w;
    }
  }

  /** A name of 256 characters loses its last one. */
  lemma LongNameCut()
    ensures var p := seq(256, _ => 'a'); Uncut(p) == Some([p]) && Canonical(p) == Some([p[..255]])
  {
    var p := seq(256, _ => 'a');
    PiecesWord(p, []);
    assert [] + p == p && Relative(p) == p && p[0] == 'a' && p[255] == 'a';
    assert [] + [p] == [p];
    assert Resolve([], [p], false, false) == Resolve([p], [], false, false);
    CanonicalIsCut(p);
    assert CutAll([p]) == [p[..255]];
  }

  predicate Proper(c: string) { 0 < |c| <= COMPONENT_MAX && '/' !in c && c != "." && c != ".." }

  predicate AllProper(stack: seq<string>) { forall i :: 0 <= i < |stack| ==> Proper(stack[i]) }

  predicate Components(comps: seq<string>) {
    forall i :: 0 <= i < |comps| ==> 0 < |comps[i]| <= COMPONENT_MAX && '/' !in comps[i]
  }

  lemma {:induction false} PartsAreComponents(p: string, cur: string)
    requires '/' !in cur && |cur| <= COMPONENT_MAX
    ensures Components(Parts(p, cur))
  {
    if p != [] {
      if p[0] == '/' { PartsAreComponents(p[1..], []); } else { PartsAreComponents(p[1..], Clip(cur, p[0])); }
    }
  }

  /** What is left has no empty, "." or ".." component and fits the stack. */
  lemma {:induction false} ResolveIsProper(stack: seq<string>, comps: seq<string>, absolute: bool, slash: bool)
    requires AllProper(stack) && Components(comps) && |stack| <= STACK_SLOTS && (comps != [] ==> |stack| < STACK_SLOTS)
    ensures var r := Resolve(stack, comps, absolute, slash); r.Some? ==> AllProper(r.value) && |r.value| <= STACK_SLOTS
    decreases |comps|
  {
    if comps != [] {
      var rest := comps[1..];
      assert Components(rest);
      if comps[0] == "." {
        ResolveIsProper(stack, rest, absolute, slash);
      } else if comps[0] == ".." {
        if stack != [] {
          ResolveIsProper(stack[..|stack| - 1], rest, absolute, slash);
        } else if !absolute {
          ResolveIsProper(stack, rest, absolute, slash);
        }
      } else if !(|stack| + 1 >= STACK_SLOTS && (|comps| > 1 || slash)) {
        ResolveIsProper(stack + [comps[0]], rest, absolute, slash);
      }
    }
  }

  /** Proper components resolve to themselves. */
  lemma {:induction false} ResolveSelf(stack: seq<string>, comps: seq<string>, absolute: bool)
    requires AllProper(comps) && |stack| + |comps| <= STACK_SLOTS
    ensures Resolve(stack, comps, absolute, false) == Some(stack + comps)
    decreases |comps|
  {
    if comps != [] {
      ResolveSelf(stack + [comps[0]], comps[1..], absolute);
      assert stack + [comps[0]] + comps[1..] == stack + comps;
    } else {
      assert stack + comps == stack;
    }
  }

  lemma {:induction false} PartsWord(w: string, q: string, cur: string)
    requires '/' !in w && |cur| + |w| <= COMPONENT_MAX
    ensures Parts(w + q, cur) == Parts(q, cur + w)
    decreases |w|
  {
    if w == [] {
      assert w + q == q && cur + w == cur;
    } else {
      assert (w + q)[1..] == w[1..] + q;
      PartsWord(w[1..], q, cur + [w[0]]);
      assert cur + [w[0]] + w[1..] == cur + w;
    }
  }

  /** A joined path falls into the components it was joined from. */
  lemma {:induction false} PartsJoin(stack: seq<string>)
    requires AllProper(stack)
    ensures Parts(Join(stack), []) == stack
    ensures stack != [] ==> Join(stack) != [] && Join(stack)[0] != '/' && !EndsInSlash(Join(stack))
    ensures !EndsInSlash(Join(stack)) && !Absolute(Join(stack))
  {
    if |stack| == 1 {
      var w := stack[0];
      assert w[0] in w && w[|w| - 1] in w;
      PartsWord(w, [], []);
      assert w + [] == w && [] + w == w;
    } else if |stack| > 1 {
      var w, q := stack[0], Join(stack[1..]);
      assert w[0] in w;
      PartsJoin(stack[1..]);
      PartsWord(w, "/" + q, []);
      assert Join(stack) == w + ("/" + q) && [] + w == w;
      assert ("/" + q)[1..] == q;
    }
  }

  /** A canonical path is its own canonical path. */
  lemma Idempotent(p: string)
    requires Canonical(p).Some?
    ensures var stack := Canonical(p).value; var s := Spell(stack, Absolute(p));
      Absolute(s) == Absolute(p) && Canonical(s) == Some(stack) && AllProper(stack) && |stack| <= STACK_SLOTS
  {
    var stack := Canonical(p).value;
    PartsAreComponents(Relative(p), []);
    ResolveIsProper([], Parts(Relative(p), []), Absolute(p), EndsInSlash(Relative(p)));
    PartsJoin(stack);
    ResolveSelf([], stack, Absolute(p));
    assert [] + stack == stack;
    var s := Spell(stack, Absolute(p));
    if Absolute(p) {
      assert s[1..] == Join(stack);
    } else if stack == [] {
      DotAlone();
    }
  }

  lemma DotAlone()
    ensures Parts(".", []) == ["."] && Resolve([], ["."], false, false) == Some([])
  {
    assert Clip([], '.') == ".";
    assert "."[1..] == [];
  }

  // ---- normalize_path ----

  lemma {:induction false} OnlySlashes(q: string)
    requires Parts(q, []) == []
    ensures forall c :: c in q ==> c == '/'
  {
    if q != [] {
      assert q == [q[0]] + q[1..];
      if q[0] == '/' { OnlySlashes(q[1..]); } else { NotEmpty(q[1..], Clip([], q[0])); }
    }
  }

  lemma {:induction false} NotEmpty(q: string, cur: string)
    requires cur != []
    ensures Parts(q, cur) != []
  {
    if q != [] && q[0] != '/' { NotEmpty(q[1..], Clip(cur, q[0])); }
  }

  /** One component meets the stack; `more` says that a slash follows it. */
  method Meet(components: array<string>, count0: nat, component: string, absolute: bool, more: bool)
    returns (ok: bool, count: nat)
    requires components.Length == STACK_SLOTS && count0 < STACK_SLOTS && component != []
    modifies components
    ensures ok ==> count <= STACK_SLOTS && (more ==> count < STACK_SLOTS)
    ensures forall comps: seq<string>, slash: bool
                      {:trigger Resolve(old(components[..count0]), comps, absolute, slash)} ::
      comps != [] && comps[0] == component && (more <==> |comps| > 1 || slash) ==>
        Resolve(old(components[..count0]), comps, absolute, slash) ==
          if ok then Resolve(components[..count], comps[1..], absolute, slash) else None
  {
    count := count0;
    ghost var stack := components[..count0];
    if component == "." {
    } else if component == ".." {
      if count > 0 {
        count := count - 1;
        assert components[..count] == stack[..|stack| - 1];
      } else if absolute {
        return false, count;
      }
    } else {
      components[count] := component;
      count := count + 1;
      assert components[..count] == stack + [component];
      if more && count >= STACK_SLOTS { return false, count; }
    }
    return true, count;
  }

  /** The first half of normalize_path: the components that remain. */
  method Collect(path: string, components: array<string>) returns (ok: bool, count: nat)
    requires components.Length == STACK_SLOTS
    modifies components
    ensures count <= STACK_SLOTS
    ensures Canonical(path) == if ok then Some(components[..count]) else None
  {
    var absolute := path != [] && path[0] == '/';
    var p := if absolute then 1 else 0;
    ghost var start, slash := p, EndsInSlash(Relative(path));
    var component: string := [];
    count := 0;
    assert components[..0] == [];
    assert path[p..] == Relative(path);
    while p < |path|
      invariant start <= p <= |path| && count < STACK_SLOTS
      invariant component != [] ==> p > start && path[p - 1] != '/'
      invariant Resolve(components[..count], Parts(path[p..], component), absolute, slash) == Canonical(path)
    {
      ghost var rest := path[p..];
      assert rest[1..] == path[p + 1..];
      if path[p] == '/' {
        if component != [] {
          ghost var comps := Parts(rest, component);
          assert comps[1..] == Parts(path[p + 1..], []);
          SlashFollows(path, start, p);
          var fine;
          fine, count := Meet(components, count, component, absolute, true);
          if !fine { return false, 0; }
          component := [];
        } else {
          assert [] + Parts(rest[1..], []) == Parts(rest[1..], []);
        }
        p := p + 1;
      } else {
        component := if |component| < COMPONENT_MAX then component + [path[p]] else component;
        p := p + 1;
      }
    }
    assert path[p..] == [];
    if component != [] {
      ok, count := Meet(components, count, component, absolute, false);
      if !ok { count := 0; }
    } else {
      ok := true;
    }
  }

  /** After a component and a slash, another component or the path's end. */
  lemma SlashFollows(path: string, start: nat, p: nat)
    requires start <= p < |path| && path[p] == '/'
    ensures Parts(path[p + 1..], []) == [] ==> EndsInSlash(path[start..])
  {
    if Parts(path[p + 1..], []) == [] {
      OnlySlashes(path[p + 1..]);
      assert p + 1 < |path| ==> path[p + 1..][|path| - 1 - (p + 1)] in path[p + 1..];
      assert path[start..][|path| - 1 - start] == path[|path| - 1];
    }
  }

  /** The first `i` components, each followed by a slash but the very last. */
  function Front(stack: seq<string>, i: nat): string
    requires i <= |stack|
  {
    if i == 0 then "" else Front(stack, i - 1) + stack[i - 1] + (if i < |stack| then "/" else "")
  }

  lemma {:induction false} FrontJoins(stack: seq<string>, i: nat)
    requires i <= |stack|
    ensures Front(stack, i) + Join(stack[i..]) == Join(stack)
  {
    if i == 0 {
      assert stack[0..] == stack && Front(stack, 0) + Join(stack) == Join(stack);
    } else {
      FrontJoins(stack, i - 1);
      var t := stack[i - 1..];
      assert t[0] == stack[i - 1] && t[1..] == stack[i..];
      assert Join(t) == stack[i - 1] + (if i < |stack| then "/" else "") + Join(stack[i..]);
      assert Front(stack, i) + Join(stack[i..])
        == Front(stack, i - 1) + (stack[i - 1] + (if i < |stack| then "/" else "") + Join(stack[i..]));
    }
  }

  lemma FrontNext(pre: string, stack: seq<string>, i: nat)
    requires i < |stack|
    ensures After(pre, stack, i + 1) == After(pre, stack, i) + stack[i] + (if i + 1 < |stack| then "/" else "")
    ensures |After(pre, stack, i + 1)| <= |pre| + |Join(stack)|
  {
    FrontJoins(stack, i + 1);
  }

  /** The output after `i` components. */
  function After(pre: string, stack: seq<string>, i: nat): string
    requires i <= |stack|
  {
    pre + Front(stack, i)
  }

  lemma AfterAll(pre: string, stack: seq<string>)
    ensures After(pre, stack, 0) == pre
    ensures After(pre, stack, |stack|) == pre + Join(stack)
  {
    FrontJoins(stack, |stack|);
    assert Front(stack, |stack|) + Join([]) == Front(stack, |stack|);
    assert stack[|stack|..] == [];
  }

  /** memcpy into the output. */
  method Copy(buf: array<char>, offset: nat, s: string)
    requires offset + |s| <= buf.Length
    modifies buf
    ensures buf[..offset + |s|] == old(buf[..offset]) + s
  {
    ghost var was := buf[..];
    for k := 0 to |s|
      invariant forall x :: 0 <= x < offset ==> buf[x] == was[x]
      invariant forall x :: 0 <= x < k ==> buf[offset + x] == s[x]
    {
      buf[offset + k] := s[k];
    }
    assert buf[offset..offset + |s|] == s;
    assert buf[..offset + |s|] == buf[..offset] + buf[offset..offset + |s|];
    assert buf[..offset] == was[..offset];
  }

  /** The second half of normalize_path: the result, if it fits with its
      terminator. */
  method Build(normalized: array<char>, stack: seq<string>, absolute: bool) returns (ok: bool, len: nat)
    requires AllProper(stack) && normalized.Length > 0
    modifies normalized
    ensures ok <==> |Spell(stack, absolute)| < normalized.Length
    ensures ok ==> len < normalized.Length && normalized[..len] == Spell(stack, absolute) && normalized[len] == '\0'
  {
    SpellLength(stack, absolute);
    var offset: nat := 0;
    if absolute && offset < normalized.Length - 1 {
      normalized[offset] := '/';
      offset := 1;
    }
    ghost var pre := if absolute && normalized.Length > 1 then "/" else "";
    SpellIs(stack, absolute);
    hide Join, Spell, AllProper;
    ok, offset := AppendAll(normalized, offset, stack, pre);
    if !ok { return false, 0; }
    ok, len := Terminate(normalized, offset, absolute);
  }

  /** The components, unless they do not fit. */
  method AppendAll(normalized: array<char>, offset0: nat, stack: seq<string>, ghost pre: string)
    returns (fits: bool, offset: nat)
    requires offset0 < normalized.Length && normalized[..offset0] == pre
    modifies normalized
    ensures fits <==> |pre| + |Join(stack)| < normalized.Length
    ensures fits ==> offset == |pre| + |Join(stack)| && normalized[..offset] == pre + Join(stack)
  {
    offset := offset0;
    AfterAll(pre, stack);
    hide After, Join;
    var i := 0;
    while i < |stack|
      invariant 0 <= i <= |stack| && offset < normalized.Length
      invariant normalized[..offset] == After(pre, stack, i)
    {
      FrontNext(pre, stack, i);
      var more := i < |stack| - 1;
      fits, offset := Append(normalized, offset, stack[i], more, After(pre, stack, i));
      if !fits { return; }
      i := i + 1;
    }
    fits := true;
  }

  /** The terminator, and the result for no components at all. */
  method Terminate(normalized: array<char>, offset: nat, absolute: bool) returns (ok: bool, len: nat)
    requires offset < normalized.Length
    modifies normalized
    ensures ok <==> offset > 0 || normalized.Length >= 2
    ensures ok ==> len == (if offset == 0 then 1 else offset) < normalized.Length && normalized[len] == '\0'
    ensures ok ==> normalized[..len] == if offset > 0 then old(normalized[..offset]) else if absolute then "/" else "."
  {
    normalized[offset] := '\0';
    if offset == 0 {
      if normalized.Length < 2 { return false, 0; }
      normalized[0] := if absolute then '/' else '.';
      normalized[1] := '\0';
      return true, 1;
    }
    return true, offset;
  }

  lemma SpellIs(stack: seq<string>, absolute: bool)
    ensures Spell(stack, absolute) == if absolute then "/" + Join(stack) else if stack == [] then "." else Join(stack)
  {
  }

  /** One component, with a slash if more follow, unless it does not fit. */
  method Append(normalized: array<char>, offset0: nat, c: string, more: bool, ghost front: string)
    returns (fits: bool, offset: nat)
    requires offset0 < normalized.Length && normalized[..offset0] == front
    modifies normalized
    ensures fits <==> offset0 + |c| + (if more then 1 else 0) < normalized.Length
    ensures fits ==>
      offset == offset0 + |c| + (if more then 1 else 0)
        && normalized[..offset] == front + c + (if more then "/" else "")
  {
    offset := offset0;
    if offset + |c| + (if more then 1 else 0) >= normalized.Length { return false, offset; }
    Copy(normalized, offset, c);
    offset := offset + |c|;
    if more {
      normalized[offset] := '/';
      offset := offset + 1;
    }
    fits := true;
  }

  lemma SpellLength(stack: seq<string>, absolute: bool)
    requires AllProper(stack)
    ensures |Spell(stack, absolute)| == if absolute then 1 + |Join(stack)| else if stack == [] then 1 else |Join(stack)|
    ensures stack != [] ==> |Join(stack)| > 0
  {
    PartsJoin(stack);
  }

  /** normalize_path: succeeds exactly when the path stays below the root, the
      stack holds its components and the buffer the result. */
  method NormalizePath(path: string, normalized: array<char>) returns (ok: bool, len: nat)
    modifies normalized
    ensures ok <==> Canonical(path).Some? && |Spell(Canonical(path).value, Absolute(path))| < normalized.Length
    ensures ok ==>
      len < normalized.Length && normalized[len] == '\0'
        && normalized[..len] == Spell(Canonical(path).value, Absolute(path))
  {
    if normalized.Length == 0 { return false, 0; }
    var components := new string[STACK_SLOTS](_ => "");
    var fine, count := Collect(path, components);
    if !fine { return false, 0; }
    CanonicalIsProper(path);
    ok, len := Build(normalized, components[..count], path != [] && path[0] == '/');
  }

  lemma CanonicalIsProper(p: string)
    ensures Canonical(p).Some? ==> AllProper(Canonical(p).value) && |Canonical(p).value| <= STACK_SLOTS
  {
    PartsAreComponents(Relative(p), []);
    ResolveIsProper([], Parts(Relative(p), []), Absolute(p), EndsInSlash(Relative(p)));
  }

  const METADATA: string := ".fat_crypt"

  /** fatcrypt_is_metadata_path: -1 if the path has no canonical form that fits,
      1 exactly if its first component is the metadata directory. */
  method IsMetadataPath(path: string) returns (r: int)
    ensures r == -1 <==> !(Canonical(path).Some? && |Spell(Canonical(path).value, Absolute(path))| < 1024)
    ensures r == 1 <==> r != -1 && Canonical(path).value != [] && Canonical(path).value[0] == METADATA
    ensures r in {-1, 0, 1}
  {
    var normalized := new char[1024](_ => ' ');
    var ok, len := NormalizePath(path, normalized);
    if !ok { return -1; }
    CanonicalIsProper(path);
    var s := normalized[..len];
    FirstComponent(Canonical(path).value, Absolute(path));
    var check := if s != [] && s[0] == '/' then s[1..] else s;
    if check == METADATA { return 1; }
    if METADATA + "/" <= check { return 1; }
    return 0;
  }

  /** The string test looks at exactly the first component. */
  lemma FirstComponent(stack: seq<string>, absolute: bool)
    requires AllProper(stack)
    ensures var s := Spell(stack, absolute); var check := if s != [] && s[0] == '/' then s[1..] else s;
      check == METADATA || METADATA + "/" <= check <==> stack != [] && stack[0] == METADATA
  {
    PartsJoin(stack);
    if stack != [] { FirstOfJoin(stack); }
  }

  lemma FirstOfJoin(stack: seq<string>)
    requires AllProper(stack) && stack != []
    ensures Join(stack) == METADATA || METADATA + "/" <= Join(stack) <==> stack[0] == METADATA
  {
    var w, m := stack[0], METADATA + "/";
    assert '/' !in METADATA && m[|METADATA|] == '/';
    if |stack| > 1 {
      var q := Join(stack[1..]);
      var check := w + "/" + q;
      assert Join(stack) == check;
      assert w + "/" <= check && check[|w|] == '/';
      if w == METADATA { assert check == m + q; }
      if m <= check { FirstSlash(w, METADATA, check); }
    } else if m <= w {
      HasSlash(METADATA, w);
    }
  }

  lemma HasSlash(a: string, s: string)
    requires a + "/" <= s
    ensures '/' in s
  {
    assert s[|a|] == (a + "/")[|a|];
  }

  lemma FirstSlash(a: string, b: string, s: string)
    requires '/' !in a && '/' !in b && a + "/" <= s && b + "/" <= s
    ensures a == b
  {
    assert s[|a|] == (a + "/")[|a|] == '/' && s[|b|] == (b + "/")[|b|] == '/';
    assert forall i :: 0 <= i < |a| ==> a[i] in a && (a + "/")[i] == a[i] == s[i];
    assert forall i :: 0 <= i < |b| ==> b[i] in b && (b + "/")[i] == b[i] == s[i];
    assert a == s[..|a|] && b == s[..|b|];
  }
}
