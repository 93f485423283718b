/**
 * Symbolic links resolved inside a root (scripts/native-runtime-preflight.py, inside): a
 * worklist of path parts, with absolute targets starting again at the root.
 */
module RootedPath {
  import opened Basics

  type Part = string
  type Path = seq<Part>

  /** A link's target as its parts; PurePosixPath keeps a leading double slash as one. */
  datatype Node = Directory | Other | Link(absolute: bool, target: Path)

  /** What lstat finds below the root. */
  type Tree = map<Path, Node>

  const MAX_LINKS := 40
  const DOUBLE_SLASH := "//"

  predicate Skipped(part: Part) { part == "" || part == "." }

  predicate Named(part: Part) { !Skipped(part) && part != ".." }

  /** relative_name: at least one part, all of them names. */
  predicate Canonical(p: Path) {
    p != [] && forall k :: 0 <= k < |p| ==> Named(p[k]) && p[k] != DOUBLE_SLASH
  }

  // ---- what resolution means ---------------------------------------------------------

  /** From `at`, the parts `todo` lead to `end` through exactly n links. */
  ghost predicate Walks(t: Tree, at: Path, todo: Path, n: nat, end: Path)
    decreases n, |todo|
  {
    if todo == [] then n == 0 && end == at
    else
      var part, rest := todo[0], todo[1..];
      if Skipped(part) then Walks(t, at, rest, n, end)
      else if part == ".." then at != [] && Walks(t, at[..|at| - 1], rest, n, end)
      else if at + [part] !in t then false
      else
        match t[at + [part]]
        case Link(absolute, target) => n > 0 && Walks(t, if absolute then [] else at, target + rest, n - 1, end)
        case Directory => Walks(t, at + [part], rest, n, end)
        case Other => rest == [] && n == 0 && end == at + [part]
  }

  /** There is at most one way to go. */
  lemma {:induction false} WalkIsUnique(t: Tree, at: Path, todo: Path, m: nat, n: nat, a: Path, b: Path)
    requires Walks(t, at, todo, m, a) && Walks(t, at, todo, n, b)
    ensures m == n && a == b
    decreases m, |todo|
  {
    if todo != [] {
      var part, rest := todo[0], todo[1..];
      if Skipped(part) {
        WalkIsUnique(t, at, rest, m, n, a, b);
      } else if part == ".." {
        WalkIsUnique(t, at[..|at| - 1], rest, m, n, a, b);
      } else {
        match t[at + [part]]
        case Link(absolute, target) => WalkIsUnique(t, if absolute then [] else at, target + rest, m - 1, n - 1, a, b);
        case Directory => WalkIsUnique(t, at + [part], rest, m, n, a, b);
        case Other =>
      }
    }
  }

  // ---- what a result is --------------------------------------------------------------

  /** Names only, every proper prefix a real directory. */
  ghost predicate Reached(t: Tree, p: Path) {
    && (forall k :: 0 <= k < |p| ==> Named(p[k]))
    && forall k :: 0 < k < |p| ==> p[..k] in t && t[p[..k]] == Directory
  }

  /** And the last component, if there is one, is there and is no link. */
  ghost predicate Real(t: Tree, p: Path) {
    Reached(t, p) && (p != [] ==> p in t && !t[p].Link?)
  }

  /** A place the walk may stand in before its last step. */
  ghost predicate Standing(t: Tree, p: Path) {
    Reached(t, p) && (p != [] ==> p in t && t[p] == Directory)
  }

  lemma StandingStep(t: Tree, at: Path, part: Part)
    requires Standing(t, at) && Named(part) && at + [part] in t && !t[at + [part]].Link?
    ensures Real(t, at + [part]) && (t[at + [part]] == Directory ==> Standing(t, at + [part]))
  {
    var p := at + [part];
    forall k | 0 < k < |p| ensures p[..k] in t && t[p[..k]] == Directory {
      if k < |at| {
        assert p[..k] == at[..k];
      } else {
        assert p[..k] == at;
      }
    }
  }

  lemma StandingUp(t: Tree, at: Path)
    requires Standing(t, at) && at != []
    ensures Standing(t, at[..|at| - 1])
  {
    var p := at[..|at| - 1];
    forall k | 0 < k < |p| ensures p[..k] in t && t[p[..k]] == Directory {
      assert p[..k] == at[..k];
    }
  }

  /** Wherever a walk from a directory ends, no link, no dot and no missing prefix is left. */
  lemma {:induction false} WalkEndsReal(t: Tree, at: Path, todo: Path, n: nat, end: Path)
    requires Standing(t, at) && Walks(t, at, todo, n, end)
    ensures Real(t, end)
    decreases n, |todo|
  {
    if todo != [] {
      var part, rest := todo[0], todo[1..];
      if Skipped(part) {
        WalkEndsReal(t, at, rest, n, end);
      } else if part == ".." {
        StandingUp(t, at);
        WalkEndsReal(t, at[..|at| - 1], rest, n, end);
      } else {
        match t[at + [part]]
        case Link(absolute, target) => WalkEndsReal(t, if absolute then [] else at, target + rest, n - 1, end);
        case Directory =>
          StandingStep(t, at, part);
          WalkEndsReal(t, at + [part], rest, n, end);
        case Other => StandingStep(t, at, part);
      }
    }
  }

  /** No part of a path is Python's double slash, which would leave the root when joined. */
  predicate Plain(p: Path) { DOUBLE_SLASH !in p }

  /** No link inside the root has a target that begins with exactly two slashes. */
  ghost predicate PlainTargets(t: Tree) {
    forall p :: p in t && Plain(p) && t[p].Link? ==> Plain(t[p].target)
  }

  // ---- resolving a result ------------------------------------------------------------

  /** From the first k components of a real path, the rest leads to it without a link. */
  lemma {:induction false} RealWalks(t: Tree, p: Path, k: nat)
    requires Real(t, p) && k <= |p|
    ensures Walks(t, p[..k], p[k..], 0, p)
    decreases |p| - k
  {
    if k == |p| {
      assert p[..k] == p;
    } else {
      assert p[..k] + [p[k]] == p[..k + 1] && p[k..][1..] == p[k + 1..];
      assert k + 1 == |p| ==> p[..k + 1] == p;
      RealWalks(t, p, k + 1);
    }
  }

  // ---- the loop ----------------------------------------------------------------------

  /** The walk with at most so many links, as the loop makes it. */
  ghost function WalkWithin(t: Tree, at: Path, todo: Path, links: nat): Option<Path>
    decreases links, |todo|
  {
    if todo == [] then Some(at)
    else
      var part, rest := todo[0], todo[1..];
      if Skipped(part) then WalkWithin(t, at, rest, links)
      else if part == ".." then if at == [] then None else WalkWithin(t, at[..|at| - 1], rest, links)
      else if at + [part] !in t then None
      else
        match t[at + [part]]
        case Link(absolute, target) =>
          if links == 0 then None else WalkWithin(t, if absolute then [] else at, target + rest, links - 1)
        case Directory => WalkWithin(t, at + [part], rest, links)
        case Other => if rest == [] then Some(at + [part]) else None
  }

  lemma {:induction false} WithinIsWalk(t: Tree, at: Path, todo: Path, links: nat) returns (n: nat)
    requires WalkWithin(t, at, todo, links).Some?
    ensures n <= links && Walks(t, at, todo, n, WalkWithin(t, at, todo, links).value)
    decreases links, |todo|
  {
    n := 0;
    if todo != [] {
      var part, rest := todo[0], todo[1..];
      if Skipped(part) {
        n := WithinIsWalk(t, at, rest, links);
      } else if part == ".." {
        n := WithinIsWalk(t, at[..|at| - 1], rest, links);
      } else {
        match t[at + [part]]
        case Link(absolute, target) =>
          n := WithinIsWalk(t, if absolute then [] else at, target + rest, links - 1);
          n := n + 1;
        case Directory => n := WithinIsWalk(t, at + [part], rest, links);
        case Other =>
      }
    }
  }

  lemma {:induction false} WalkIsWithin(t: Tree, at: Path, todo: Path, n: nat, end: Path, links: nat)
    requires Walks(t, at, todo, n, end) && n <= links
    ensures WalkWithin(t, at, todo, links) == Some(end)
    decreases n, |todo|
  {
    if todo != [] {
      var part, rest := todo[0], todo[1..];
      if Skipped(part) {
        WalkIsWithin(t, at, rest, n, end, links);
      } else if part == ".." {
        WalkIsWithin(t, at[..|at| - 1], rest, n, end, links);
      } else {
        match t[at + [part]]
        case Link(absolute, target) => WalkIsWithin(t, if absolute then [] else at, target + rest, n - 1, end, links - 1);
        case Directory => WalkIsWithin(t, at + [part], rest, n, end, links);
        case Other =>
      }
    }
  }

  ghost predicate LeadsIn(t: Tree, at: Path, todo: Path, n: nat, links: nat, end: Path) {
    n <= links && Walks(t, at, todo, n, end)
  }

  ghost predicate Leads(t: Tree, at: Path, todo: Path, links: nat, end: Path) {
    exists n: nat :: LeadsIn(t, at, todo, n, links, end)
  }

  /** The bounded walk finds an end exactly when a walk of no more links leads there. */
  lemma WithinIffWalks(t: Tree, at: Path, todo: Path, links: nat, end: Path)
    ensures WalkWithin(t, at, todo, links) == Some(end) <==> Leads(t, at, todo, links, end)
  {
    if WalkWithin(t, at, todo, links) == Some(end) {
      var n := WithinIsWalk(t, at, todo, links);
      assert LeadsIn(t, at, todo, n, links, end);
    } else if Leads(t, at, todo, links, end) {
      var n: nat :| LeadsIn(t, at, todo, n, links, end);
      WalkIsWithin(t, at, todo, n, end, links);
    }
  }

  /** inside */
  method Inside(t: Tree, relative: Path) returns (result: Option<Path>)
    requires Canonical(relative)
    ensures result == WalkWithin(t, [], relative, 40)
  {
    var todo := relative;
    var resolved: Path := [];
    var links := 0;
    while todo != []
      invariant 0 <= links <= MAX_LINKS
      invariant WalkWithin(t, [], relative, MAX_LINKS) == WalkWithin(t, resolved, todo, MAX_LINKS - links)
      decreases MAX_LINKS - links, |todo|
    {
      var part, rest := todo[0], todo[1..];
      if part == "" || part == "." {
        todo := rest;
        continue;
      }
      if part == ".." {
        if resolved == [] {
          return None;
        }
        resolved := resolved[..|resolved| - 1];
        todo := rest;
        continue;
      }
      var candidate := resolved + [part];
      if candidate !in t {
        return None;
      }
      var info := t[candidate];
      if info.Link? {
        if links + 1 > MAX_LINKS {
          return None;
        }
        links := links + 1;
        if info.absolute {
          resolved := [];
        }
        todo := info.target + rest;
      } else {
        if rest != [] && info != Directory {
          return None;
        }
        resolved := candidate;
        todo := rest;
      }
    }
    result := Some(resolved);
  }

  // ---- resolution law by law ---------------------------------------------------------

  /** What a path resolves to, through at most so many links. */
  ghost function Resolve(t: Tree, p: Path, links: nat): Option<Path> { WalkWithin(t, [], p, links) }

  /** A path that starts with a directory goes on from that directory. */
  lemma {:induction false} FromDirectory(t: Tree, at: Path, k: nat, todo: Path, links: nat)
    requires Standing(t, at) && k <= |at|
    ensures WalkWithin(t, at[..k], at[k..] + todo, links) == WalkWithin(t, at, todo, links)
    decreases |at| - k
  {
    if k == |at| {
      assert at[..k] == at && at[k..] + todo == todo;
    } else {
      assert (at[k..] + todo)[1..] == at[k + 1..] + todo && at[..k] + [at[k]] == at[..k + 1];
      assert k + 1 == |at| ==> at[..k + 1] == at;
      FromDirectory(t, at, k + 1, todo, links);
    }
  }

  lemma ResolveFrom(t: Tree, at: Path, todo: Path, links: nat)
    requires Standing(t, at)
    ensures Resolve(t, at + todo, links) == WalkWithin(t, at, todo, links)
  {
    FromDirectory(t, at, 0, todo, links);
    assert at[..0] == [] && at[0..] == at;
  }

  /** Empty parts and single dots say nothing. */
  lemma DotIsNothing(t: Tree, at: Path, dot: Part, rest: Path, links: nat)
    requires Standing(t, at) && dot in {"", "."}
    ensures Resolve(t, at + ([dot] + rest), links) == Resolve(t, at + rest, links)
  {
    ResolveFrom(t, at, [dot] + rest, links);
    ResolveFrom(t, at, rest, links);
    assert ([dot] + rest)[1..] == rest;
  }

  /** Two dots take back the directory before them, and refuse at the root. */
  lemma DotsAreParent(t: Tree, at: Path, name: Part, rest: Path, links: nat)
    requires Standing(t, at) && Standing(t, at + [name])
    ensures Resolve(t, (at + [name]) + ([".."] + rest), links) == Resolve(t, at + rest, links)
    ensures Resolve(t, [".."] + rest, links) == None
  {
    ResolveFrom(t, at + [name], [".."] + rest, links);
    ResolveFrom(t, at, rest, links);
    assert ([".."] + rest)[1..] == rest && (at + [name])[..|at|] == at;
  }

  /** A link is its target spelled out: in its directory, or from the root if it is absolute. */
  lemma LinkIsTarget(t: Tree, at: Path, name: Part, rest: Path, links: nat)
    requires Standing(t, at) && name !in {"", ".", ".."} && at + [name] in t && t[at + [name]].Link?
    ensures var l := t[at + [name]];
      Resolve(t, at + ([name] + rest), links) ==
        if links == 0 then None
        else Resolve(t, if l.absolute then l.target + rest else at + (l.target + rest), links - 1)
  {
    var l := t[at + [name]];
    ResolveFrom(t, at, [name] + rest, links);
    assert ([name] + rest)[1..] == rest;
    if links > 0 && !l.absolute {
      ResolveFrom(t, at, l.target + rest, links - 1);
    }
  }

  /** Anything else must be there, and nothing follows it unless it is a directory. */
  lemma NameIsLooked(t: Tree, at: Path, name: Part, rest: Path, links: nat)
    requires Standing(t, at) && name !in {"", ".", ".."} && (at + [name] in t ==> !t[at + [name]].Link?)
    ensures at + [name] !in t ==> Resolve(t, at + ([name] + rest), links) == None
    ensures at + [name] in t && t[at + [name]] == Other ==>
      Resolve(t, at + ([name] + rest), links) == if rest == [] then Some(at + [name]) else None
    ensures at + [name] in t && t[at + [name]] == Directory ==>
      Resolve(t, at + ([name] + rest), links) == Resolve(t, (at + [name]) + rest, links) && Resolve(t, at + [name], links) == Some(at + [name])
  {
    ResolveFrom(t, at, [name] + rest, links);
    assert ([name] + rest)[1..] == rest;
    if at + [name] in t && t[at + [name]] == Directory {
      StandingStep(t, at, name);
      ResolveFrom(t, at + [name], rest, links);
      ResolveFrom(t, at + [name], [], links);
      assert (at + [name]) + [] == at + [name];
    }
  }

  // ---- inside the root ---------------------------------------------------------------

  /** The walk asks about a path that joining does not put below the root. */
  ghost predicate LooksOutside(t: Tree, at: Path, todo: Path, links: nat)
    decreases links, |todo|
  {
    todo != [] &&
    var part, rest := todo[0], todo[1..];
    if Skipped(part) then LooksOutside(t, at, rest, links)
    else if part == ".." then at != [] && LooksOutside(t, at[..|at| - 1], rest, links)
    else
      !Plain(at + [part]) ||
      (at + [part] in t &&
       match t[at + [part]]
       case Link(absolute, target) => links > 0 && LooksOutside(t, if absolute then [] else at, target + rest, links - 1)
       case Directory => LooksOutside(t, at + [part], rest, links)
       case Other => false)
  }

  /** Every entry is in a directory, and a double slash only ever heads an absolute target. */
  ghost predicate FileTree(t: Tree) {
    && [] !in t
    && (forall p :: p in t ==> Reached(t, p))
    && forall p, k :: p in t && t[p].Link? && 0 <= k < |t[p].target| && t[p].target[k] == DOUBLE_SLASH ==>
      k == 0 && t[p].absolute
  }

  lemma {:induction false} LooksInside(t: Tree, at: Path, todo: Path, links: nat)
    requires PlainTargets(t) && Plain(at) && Plain(todo)
    ensures !LooksOutside(t, at, todo, links)
    decreases links, |todo|
  {
    if todo != [] {
      var part, rest := todo[0], todo[1..];
      if Skipped(part) {
        LooksInside(t, at, rest, links);
      } else if part == ".." {
        if at != [] {
          LooksInside(t, at[..|at| - 1], rest, links);
        }
      } else if at + [part] in t {
        match t[at + [part]]
        case Link(absolute, target) =>
          if links > 0 {
            LooksInside(t, if absolute then [] else at, target + rest, links - 1);
          }
        case Directory => LooksInside(t, at + [part], rest, links);
        case Other =>
      }
    }
  }

  /** The way down to a link whose target has a double slash at its head. */
  lemma {:induction false} LinkLooksOutside(t: Tree, p: Path, k: nat, links: nat)
    requires FileTree(t) && p in t && t[p].Link? && Plain(p) && !Plain(t[p].target) && k < |p| && links > 0
    ensures LooksOutside(t, p[..k], p[k..], links)
    decreases |p| - k
  {
    assert p[..k] + [p[k]] == p[..k + 1] && p[k..][1..] == p[k + 1..];
    if k + 1 < |p| {
      LinkLooksOutside(t, p, k + 1, links);
    } else {
      assert p[..k + 1] == p && t[p].target[0] == DOUBLE_SLASH && t[p].absolute;
      assert DOUBLE_SLASH in [] + [DOUBLE_SLASH];
      assert LooksOutside(t, [], t[p].target + p[k + 1..], links - 1);
    }
  }

  /** Every path is looked up below the root if and only if no link there has a double-slash target. */
  lemma RootedIffPlainTargets(t: Tree)
    requires FileTree(t)
    ensures (forall r :: Canonical(r) ==> !LooksOutside(t, [], r, MAX_LINKS)) <==> PlainTargets(t)
  {
    if PlainTargets(t) {
      forall r | Canonical(r) ensures !LooksOutside(t, [], r, MAX_LINKS) {
        LooksInside(t, [], r, MAX_LINKS);
      }
    } else {
      var p :| p in t && Plain(p) && t[p].Link? && !Plain(t[p].target);
      assert Reached(t, p) && Canonical(p);
      LinkLooksOutside(t, p, 0, MAX_LINKS);
      assert p[..0] == [] && p[0..] == p;
    }
  }

  /** What is found is real, and below the root when no lookup left it. */
  lemma FoundIsReal(t: Tree, relative: Path)
    requires Canonical(relative) && WalkWithin(t, [], relative, MAX_LINKS).Some?
    ensures var end := WalkWithin(t, [], relative, MAX_LINKS).value;
      Real(t, end) && (!LooksOutside(t, [], relative, MAX_LINKS) || PlainTargets(t) ==> Plain(end))
  {
    var end := WalkWithin(t, [], relative, MAX_LINKS).value;
    var n := WithinIsWalk(t, [], relative, MAX_LINKS);
    WalkEndsReal(t, [], relative, n, end);
    if PlainTargets(t) {
      LooksInside(t, [], relative, MAX_LINKS);
    }
    if !LooksOutside(t, [], relative, MAX_LINKS) {
      FoundWhereLooked(t, [], relative, MAX_LINKS);
    }
  }

  lemma {:induction false} FoundWhereLooked(t: Tree, at: Path, todo: Path, links: nat)
    requires Plain(at) && !LooksOutside(t, at, todo, links) && WalkWithin(t, at, todo, links).Some?
    ensures Plain(WalkWithin(t, at, todo, links).value)
    decreases links, |todo|
  {
    if todo != [] {
      var part, rest := todo[0], todo[1..];
      if Skipped(part) {
        FoundWhereLooked(t, at, rest, links);
      } else if part == ".." {
        FoundWhereLooked(t, at[..|at| - 1], rest, links);
      } else {
        match t[at + [part]]
        case Link(absolute, target) => FoundWhereLooked(t, if absolute then [] else at, target + rest, links - 1);
        case Directory => FoundWhereLooked(t, at + [part], rest, links);
        case Other =>
      }
    }
  }

  /** Resolving a result again changes nothing, and it may be asked for unless it is outside the root. */
  lemma FoundIsFixed(t: Tree, relative: Path)
    requires Canonical(relative) && WalkWithin(t, [], relative, MAX_LINKS).Some?
    ensures var end := WalkWithin(t, [], relative, MAX_LINKS).value;
      && WalkWithin(t, [], end, MAX_LINKS) == Some(end)
      && (end != [] ==> (Canonical(end) <==> Plain(end)))
  {
    var end := WalkWithin(t, [], relative, MAX_LINKS).value;
    FoundIsReal(t, relative);
    RealWalks(t, end, 0);
    assert end[..0] == [] && end[0..] == end;
    WalkIsWithin(t, [], end, 0, end, MAX_LINKS);
  }

  /** A target that starts with exactly two slashes is not read as one below the root. */
  lemma DoubleSlashIsNotRooted(name: Part, leaf: Part, t: Tree)
    requires Named(name) && Named(leaf) && name != DOUBLE_SLASH
    requires t == map[[name] := Link(true, [DOUBLE_SLASH, leaf]), [DOUBLE_SLASH] := Directory, [DOUBLE_SLASH, leaf] := Other]
    ensures Canonical([name]) && Walks(t, [], [name], 1, [DOUBLE_SLASH, leaf]) && !Plain([DOUBLE_SLASH, leaf])
  {
    var target := [DOUBLE_SLASH, leaf];
    assert [] + [name] == [name] && target + [name][1..] == target;
    assert [] + [DOUBLE_SLASH] == [DOUBLE_SLASH] && target[1..] == [leaf];
    assert [DOUBLE_SLASH] + [leaf] == target;
    assert Walks(t, [DOUBLE_SLASH], [leaf], 0, target);
    assert Walks(t, [], target, 0, target);
  }
}
