/**
 The path resolver of the runtime write ratchet (scripts/runtime_write_resolve.py): what
 the source of a path expression says about where it points, and what that says about
 writes into the code folders.

 The abstract values are the source's.  The concrete values follow pathlib and os.path on
 Windows: a path is relative (read from the repo root), in the checkout, or away from it,
 and away is absorbing.  No concrete path holds `..`.
 */
module PathResolver {
  import opened Options
  import opened Seqs

  const MAX_DEPTH: nat := 12

  /** A part of a path that leads somewhere. */
  type Part = s: string | s != "" && s != "." witness "?"

  /** A name in the checkout; Windows keeps `:` for drives. */
  type FileName = s: string | s != "" && s != "." && ':' !in s witness "?"

  const WILD: Part := "?"

  /** Known parts below the repo root, with `?` where a name is open, or off the checkout, or unknown. */
  datatype Resolved = Known(parts: seq<Part>) | Outside | Unknown

  datatype Expr =
    | Literal(text: string)
    | ThisFile                                // `__file__`
    | Cwd                                     // `Path.cwd()`, `os.getcwd()`
    | SafeCall                                // a temp dir, the home folder, the runtime root
    | Name(id: string)
    | Div(left: Expr, right: Expr)            // `left / right`
    | Join(first: Expr, rest: seq<Expr>)      // `joinpath`, `Path(a, b)`, `os.path.normpath(a)`
    | TextJoin(first: Expr, rest: seq<Expr>)  // `os.path.join`; alone, `str(a)` or `os.fspath(a)`
    | Same(path: Expr)                        // `resolve()`, `absolute()`, `os.path.abspath`, `os.path.realpath`
    | Parents(path: Expr, levels: nat)        // `.parent`: 1; `.parents[n]`: n + 1
    | Dirname(path: Expr)                     // `os.path.dirname`
    | Other(tag: nat)                         // anything else: a parameter, an attribute, a call

  // ---------------------------------------------------------------- literals

  predicate IsSlash(c: char) { c == '/' || c == '\\' }

  /** What the resolver takes to be off the checkout. */
  predicate IsAbsolute(text: string) {
    || (|text| >= 1 && (IsSlash(text[0]) || text[0] == '~'))
    || (|text| >= 3 && ('a' <= text[0] <= 'z' || 'A' <= text[0] <= 'Z') && text[1] == ':' && IsSlash(text[2]))
  }

  /** The text between slashes. */
  function Parts(text: string): (r: seq<string>)
    ensures r != []
  {
    if text == "" then [""]
    else
      var rest := Parts(text[1..]);
      if IsSlash(text[0]) then [""] + rest else [[text[0]] + rest[0]] + rest[1..]
  }

  /** `parts` read on top of `base`: `..` pops, and popping past the root leaves the checkout. */
  function Descend(base: seq<Part>, parts: seq<string>): Resolved
    decreases |parts|
  {
    if parts == [] then Known(base)
    else if parts[0] == "" || parts[0] == "." then Descend(base, parts[1..])
    else if parts[0] == ".." then if base == [] then Outside else Descend(base[..|base| - 1], parts[1..])
    else Descend(base + [parts[0]], parts[1..])
  }

  function LiteralValue(text: string): Resolved {
    if IsAbsolute(text) then Outside else Descend([], Parts(text))
  }

  method SplitLiteral(text: string) returns (r: Resolved)
    ensures r == LiteralValue(text)
  {
    if IsAbsolute(text) { return Outside; }
    var all := Parts(text);
    var parts: seq<Part> := [];
    for i := 0 to |all|
      invariant Descend(parts, all[i..]) == Descend([], all)
    {
      var part := all[i];
      DropDrop(all, i, 1);
      if part == "" || part == "." { continue; }
      if part == ".." {
        if parts == [] { return Outside; }
        parts := parts[..|parts| - 1];
      } else {
        parts := parts + [part];
      }
    }
    r := Known(parts);
  }

  /** Reading in two goes; once off the checkout, there is no way back. */
  lemma {:induction false} DescendConcat(base: seq<Part>, a: seq<string>, b: seq<string>)
    ensures Descend(base, a + b) ==
            if Descend(base, a).Known? then Descend(Descend(base, a).parts, b) else Descend(base, a)
    decreases |a|
  {
    NoneLeft(b);
    if a != [] {
      ConcatLeft(a, b, 1);
      if a[0] == "" || a[0] == "." {
        DescendConcat(base, a[1..], b);
      } else if a[0] == ".." {
        if base != [] { DescendConcat(base[..|base| - 1], a[1..], b); }
      } else {
        DescendConcat(base + [a[0]], a[1..], b);
      }
    }
  }

  lemma DotsHere(base: seq<Part>, x: Part, b: seq<string>)
    requires x != ".."
    ensures Descend(base, [x, ".."] + b) == Descend(base, b) && Descend([], [".."] + b) == Outside
  {
    assert (base + [x])[..|base|] == base;
    assert ([x, ".."] + b)[1..] == [".."] + b && ([".."] + b)[1..] == b;
  }

  lemma NothingHere(base: seq<Part>, b: seq<string>)
    ensures Descend(base, ["", "."] + b) == Descend(base, b)
  {
    assert (["", "."] + b)[1..] == ["."] + b && (["."] + b)[1..] == b;
  }

  /** `..` cancels the name before it, and with no name before it leaves the checkout; empty parts and `.` are nothing. */
  lemma DotsCancel(a: seq<string>, x: Part, b: seq<string>)
    requires x != ".."
    ensures Descend([], a + ([x, ".."] + b)) == Descend([], a + b)
    ensures Descend([], [".."] + b) == Outside
    ensures Descend([], a + (["", "."] + b)) == Descend([], a + b)
  {
    hide Descend;
    DescendConcat([], a, b);
    DescendConcat([], a, [x, ".."] + b);
    DescendConcat([], a, ["", "."] + b);
    DotsHere([], x, b);
    if Descend([], a).Known? {
      DotsHere(Descend([], a).parts, x, b);
      NothingHere(Descend([], a).parts, b);
    }
  }

  // ---------------------------------------------------------------- the abstract operations

  function JoinValue(left: Resolved, right: Resolved): Resolved {
    if !left.Known? then left
    else if right.Outside? then Outside
    else if right.Unknown? then Known(left.parts + [WILD])
    else Known(left.parts + right.parts)
  }

  function ParentValue(value: Resolved): Resolved {
    if !value.Known? then value
    else if value.parts == [] then Outside
    else if value.parts[|value.parts| - 1] == WILD then Unknown
    else Known(value.parts[..|value.parts| - 1])
  }

  function ParentsValue(value: Resolved, levels: nat): Resolved
    decreases levels
  {
    if levels == 0 then value else ParentsValue(ParentValue(value), levels - 1)
  }

  lemma {:induction false} ParentsStop(value: Resolved, levels: nat)
    requires !value.Known?
    ensures ParentsValue(value, levels) == value
  {
    if levels > 0 { ParentsStop(value, levels - 1); }
  }

  method Parent(value: Resolved, levels: nat) returns (r: Resolved)
    ensures r == ParentsValue(value, levels)
  {
    r := value;
    if !value.Known? {
      ParentsStop(value, levels);
      return;
    }
    for i := 0 to levels
      invariant r.Known? && ParentsValue(r, levels - i) == ParentsValue(value, levels)
    {
      if r.parts == [] {
        ParentsStop(Outside, levels - i - 1);
        return Outside;
      }
      if r.parts[|r.parts| - 1] == WILD {
        ParentsStop(Unknown, levels - i - 1);
        return Unknown;
      }
      r := Known(r.parts[..|r.parts| - 1]);
    }
  }

  /** Module-level names: the one expression assigned to each, or None when it is bound any other way. */
  type Bindings = map<string, Option<Expr>>

  function Lookup(names: Bindings, id: string): Option<Expr> {
    if id in names then names[id] else None
  }

  function Resolve(e: Expr, file: seq<FileName>, names: Bindings, depth: nat): Resolved
    decreases MAX_DEPTH + 1 - depth, 1, e
  {
    if depth > MAX_DEPTH then Unknown
    else
      match e
      case Literal(text) => LiteralValue(text)
      case ThisFile => Known(file)
      case Cwd => Known([])
      case SafeCall => Outside
      case Name(id) =>
        var bound := Lookup(names, id);
        if bound.None? then Unknown else Resolve(bound.value, file, names, depth + 1)
      case Div(l, r) => JoinValue(Resolve(l, file, names, depth + 1), Resolve(r, file, names, depth + 1))
      case Join(first, rest) => ResolveAll(Resolve(first, file, names, depth + 1), rest, file, names, depth + 1)
      case TextJoin(first, rest) => ResolveAll(Resolve(first, file, names, depth + 1), rest, file, names, depth + 1)
      case Same(path) => Resolve(path, file, names, depth + 1)
      case Parents(path, levels) => ParentsValue(Resolve(path, file, names, depth + 1), levels)
      case Dirname(path) => ParentValue(Resolve(path, file, names, depth + 1))
      case Other(_) => Unknown
  }

  function ResolveAll(left: Resolved, rest: seq<Expr>, file: seq<FileName>, names: Bindings, depth: nat): Resolved
    decreases MAX_DEPTH + 1 - depth, 2, rest
  {
    if rest == [] then left
    else ResolveAll(JoinValue(left, Resolve(rest[0], file, names, depth)), rest[1..], file, names, depth)
  }

  datatype Verdict = Clean | Unresolved | CodeFolder

  function Classify(value: Resolved, folders: set<string>): Verdict {
    match value
    case Unknown => Unresolved
    case Outside => Clean
    case Known(parts) =>
      if parts == [] then Clean
      else if parts[0] == WILD then Unresolved
      else if parts[0] in folders then CodeFolder
      else Clean
  }

  // ---------------------------------------------------------------- what a path really is

  /** A path as it is written: an empty part or `.` leads nowhere, but counts for `os.path.dirname`. */
  datatype Path = Rel(parts: seq<string>) | Abs(parts: seq<string>) | Away

  function Solid(parts: seq<string>): seq<Part> {
    if parts == [] then []
    else (if parts[0] == "" || parts[0] == "." then [] else [parts[0]]) + Solid(parts[1..])
  }

  /** The form in which pathlib keeps a path. */
  function Tidy(p: Path): Path {
    match p
    case Rel(parts) => Rel(Solid(parts))
    case Abs(parts) => Abs(Solid(parts))
    case Away => Away
  }

  /**
   What the program's names and other expressions hold when it runs, and where in the checkout a text with a
   drive or a root points, if it does.
   */
  datatype World = World(names: string -> Path, others: nat -> Path, anchored: string -> Option<seq<FileName>>)

  predicate HasRoot(text: string) {
    || (|text| >= 1 && IsSlash(text[0]))
    || (|text| >= 3 && text[1] == ':' && IsSlash(text[2]))
  }

  /** A drive without a root goes on from wherever that drive is. */
  predicate DriveOnly(text: string) {
    |text| >= 2 && text[1] == ':' && !HasRoot(text)
  }

  /** A literal without `..`; `~` is a name like any other until `expanduser`. */
  function LiteralPath(text: string, w: World): Path {
    if HasRoot(text) || DriveOnly(text) then
      if w.anchored(text).Some? then Abs(w.anchored(text).value) else Away
    else Rel(Parts(text))
  }

  /** An absolute right-hand path replaces the left. */
  function JoinPath(left: Path, right: Path): Path {
    if !right.Rel? then right
    else
      match left
      case Rel(p) => Rel(p + right.parts)
      case Abs(p) => Abs(p + right.parts)
      case Away => Away
  }

  /** pathlib's parent: that of the relative root is itself; that of the checkout is away. */
  function ParentPath(p: Path): Path {
    match Tidy(p)
    case Rel(parts) => if parts == [] then Rel([]) else Rel(parts[..|parts| - 1])
    case Abs(parts) => if parts == [] then Away else Abs(parts[..|parts| - 1])
    case Away => Away
  }

  function ParentsPath(p: Path, levels: nat): Path
    decreases levels
  {
    if levels == 0 then p else ParentsPath(ParentPath(p), levels - 1)
  }

  /** The text up to the last slash, without the slashes it ends in. */
  function Head(parts: seq<string>): seq<string>
    requires parts != []
  {
    Stripped(parts[..|parts| - 1])
  }

  function Stripped(parts: seq<string>): seq<string> {
    if parts != [] && parts[|parts| - 1] == "" then Stripped(parts[..|parts| - 1]) else parts
  }

  /** `os.path.dirname` drops the last part as it is written, be it empty or `.`. */
  function DirnamePath(p: Path): Path {
    match p
    case Rel(parts) => if parts == [] then p else Rel(Head(parts))
    case Abs(parts) => if parts == [] then Away else Abs(Head(parts))
    case Away => Away
  }

  function Eval(e: Expr, file: seq<FileName>, w: World): Path
    decreases e, 1
  {
    match e
    case Literal(text) => LiteralPath(text, w)
    case ThisFile => Abs(file)
    case Cwd => Abs([])
    case SafeCall => Away
    case Name(id) => w.names(id)
    case Div(l, r) => Tidy(JoinPath(Eval(l, file, w), Eval(r, file, w)))
    case Join(first, rest) => Tidy(EvalAll(Eval(first, file, w), rest, file, w))
    case TextJoin(first, rest) => EvalAll(Eval(first, file, w), rest, file, w)
    case Same(path) => var p := Tidy(Eval(path, file, w)); if p.Rel? then Abs(p.parts) else p
    case Parents(path, levels) => ParentsPath(Tidy(Eval(path, file, w)), levels)
    case Dirname(path) => DirnamePath(Eval(path, file, w))
    case Other(tag) => w.others(tag)
  }

  function EvalAll(left: Path, rest: seq<Expr>, file: seq<FileName>, w: World): Path
    decreases rest, 0
  {
    if rest == [] then left else EvalAll(JoinPath(left, Eval(rest[0], file, w)), rest[1..], file, w)
  }

  /** What the resolver makes of a literal is right: one with a drive or root points away, no other starts with `~`. */
  predicate LiteralRight(text: string, w: World) {
    if HasRoot(text) || DriveOnly(text) then w.anchored(text).None? else text == "" || text[0] != '~'
  }

  /** The last part as written leads somewhere, or the parent is off the checkout in any case. */
  predicate DirnameRight(p: Path) {
    || p.Away? || (p.Abs? && p.parts == [])
    || (p.parts != [] && p.parts[|p.parts| - 1] != "" && p.parts[|p.parts| - 1] != ".")
  }

  /** The left side claims nothing an absolute right-hand path could make wrong, or the right side is outside. */
  predicate JoinHarmless(left: Resolved, right: Resolved) {
    left.Unknown? || right.Outside? || (left.Known? && forall x :: x in left.parts ==> x == WILD)
  }

  predicate JoinTame(left: Resolved, right: Resolved, r: Path) {
    r.Abs? ==> JoinHarmless(left, right)
  }

  /**
   Where the resolver may be trusted: literals hold no `..`, no leading `~` and no drive without a root, and point
   off the checkout if they have a root; a right-hand side that is an absolute path of the checkout meets a
   harmless left; and of a path the resolver knows, no parent is taken of the relative root, and no dirname of a
   text that ends in a slash or in `.`.
   */
  predicate Tame(e: Expr, file: seq<FileName>, names: Bindings, w: World, depth: nat)
    decreases MAX_DEPTH + 1 - depth, 1, e
  {
    depth > MAX_DEPTH ||
    match e
    case Literal(text) => ".." !in Parts(text) && LiteralRight(text, w) && !DriveOnly(text)
    case Name(id) => Lookup(names, id).Some? ==> Tame(names[id].value, file, names, w, depth + 1)
    case Div(l, r) =>
      && Tame(l, file, names, w, depth + 1) && Tame(r, file, names, w, depth + 1)
      && JoinTame(Resolve(l, file, names, depth + 1), Resolve(r, file, names, depth + 1), Eval(r, file, w))
    case Join(first, rest) =>
      && Tame(first, file, names, w, depth + 1)
      && TameAll(Resolve(first, file, names, depth + 1), rest, file, names, w, depth + 1)
    case TextJoin(first, rest) =>
      && Tame(first, file, names, w, depth + 1)
      && TameAll(Resolve(first, file, names, depth + 1), rest, file, names, w, depth + 1)
    case Same(path) => Tame(path, file, names, w, depth + 1)
    case Parents(path, levels) =>
      && Tame(path, file, names, w, depth + 1)
      && ParentsTame(Resolve(path, file, names, depth + 1), Tidy(Eval(path, file, w)), levels)
    case Dirname(path) =>
      && Tame(path, file, names, w, depth + 1)
      && (Resolve(path, file, names, depth + 1).Known? ==> DirnameRight(Eval(path, file, w)))
    case _ => true
  }

  predicate TameAll(left: Resolved, rest: seq<Expr>, file: seq<FileName>, names: Bindings, w: World, depth: nat)
    decreases MAX_DEPTH + 1 - depth, 2, rest
  {
    rest == [] ||
    var right := Resolve(rest[0], file, names, depth);
    && Tame(rest[0], file, names, w, depth) && JoinTame(left, right, Eval(rest[0], file, w))
    && TameAll(JoinValue(left, right), rest[1..], file, names, w, depth)
  }

  predicate ParentsTame(value: Resolved, p: Path, levels: nat) {
    value.Known? && p.Rel? ==> |p.parts| >= levels
  }

  /** Every name holds the value of the one expression assigned to it. */
  ghost predicate Assigned(names: Bindings, file: seq<FileName>, w: World) {
    forall id :: id in names && names[id].Some? ==>
      w.names(id) == Eval(names[id].value, file, w)
  }

  // ---------------------------------------------------------------- coverage

  /** `?` stands for any downward run of parts. */
  ghost predicate Matches(pattern: seq<string>, parts: seq<string>)
    decreases |pattern|
  {
    if pattern == [] then parts == []
    else if pattern[0] == WILD then exists k :: 0 <= k <= |parts| && Matches(pattern[1..], parts[k..])
    else parts != [] && parts[0] == pattern[0] && Matches(pattern[1..], parts[1..])
  }

  /** Anything away needs no cover; a path in the checkout needs a matching pattern, or no claim at all. */
  ghost predicate Covers(value: Resolved, p: Path) {
    p.Away? || value.Unknown? || (value.Known? && Matches(value.parts, Solid(p.parts)))
  }

  lemma {:induction false} MatchesSelf(parts: seq<string>)
    ensures Matches(parts, parts)
  {
    if parts != [] { MatchesSelf(parts[1..]); }
  }

  lemma {:induction false} MatchesConcat(a: seq<string>, x: seq<string>, b: seq<string>, y: seq<string>)
    requires Matches(a, x) && Matches(b, y)
    ensures Matches(a + b, x + y)
    decreases |a|
  {
    NoneLeft(b);
    NoneLeft(y);
    if a != [] {
      ConcatLeft(a, b, 1);
      if a[0] == WILD {
        var k :| 0 <= k <= |x| && Matches(a[1..], x[k..]);
        MatchesConcat(a[1..], x[k..], b, y);
        ConcatLeft(x, y, k);
        assert (x + y)[k..] == x[k..] + y;
      } else {
        MatchesConcat(a[1..], x[1..], b, y);
        ConcatLeft(x, y, 1);
      }
    }
  }

  lemma MatchesWild(parts: seq<string>)
    ensures Matches([WILD], parts)
  {
    assert [WILD][1..] == [] && parts[|parts|..] == [];
    assert Matches([WILD][1..], parts[|parts|..]);
  }

  lemma {:induction false} MatchesInit(pattern: seq<string>, parts: seq<string>)
    requires pattern != [] && pattern[|pattern| - 1] != WILD && Matches(pattern, parts)
    ensures parts != [] && Matches(pattern[..|pattern| - 1], parts[..|parts| - 1])
    ensures parts[|parts| - 1] == pattern[|pattern| - 1]
    decreases |pattern|
  {
    if |pattern| == 1 {
      assert parts[..|parts| - 1] == [] && pattern[..0] == [];
    } else {
      var k := 1;
      if pattern[0] == WILD { k :| 0 <= k <= |parts| && Matches(pattern[1..], parts[k..]); }
      MatchesInit(pattern[1..], parts[k..]);
      assert pattern[1..][..|pattern| - 2] == pattern[..|pattern| - 1][1..];
      assert parts[k..][..|parts| - k - 1] == parts[..|parts| - 1][k..];
    }
  }

  lemma {:induction false} DescendPlain(base: seq<Part>, parts: seq<string>)
    requires ".." !in parts
    ensures Descend(base, parts) == Known(base + Solid(parts))
    decreases |parts|
  {
    NoneLeft(base);
    if parts != [] {
      HeadTail(parts);
      NoneLeft(Solid(parts[1..]));
      if parts[0] == "" || parts[0] == "." {
        DescendPlain(base, parts[1..]);
      } else {
        DescendPlain(base + [parts[0]], parts[1..]);
        Assoc(base, [parts[0]], Solid(parts[1..]));
      }
    }
  }

  lemma {:induction false} SolidConcat(a: seq<string>, b: seq<string>)
    ensures Solid(a + b) == Solid(a) + Solid(b)
  {
    NoneLeft(b);
    NoneLeft(Solid(b));
    if a != [] {
      ConcatLeft(a, b, 1);
      SolidConcat(a[1..], b);
      NoneLeft(Solid(a[1..]));
      NoneLeft(Solid(a[1..] + b));
      Assoc(if a[0] == "" || a[0] == "." then [] else [a[0]], Solid(a[1..]), Solid(b));
    }
  }

  lemma {:induction false} SolidSelf(parts: seq<string>)
    requires "" !in parts && "." !in parts
    ensures Solid(parts) == parts
  {
    if parts != [] {
      HeadTail(parts);
      SolidSelf(parts[1..]);
    }
  }

  /** Tidying moves nothing. */
  lemma TidyCovers(value: Resolved, p: Path)
    ensures Covers(value, Tidy(p)) <==> Covers(value, p)
    ensures Tidy(p).Rel? ==> (Covers(value, Abs(Tidy(p).parts)) <==> Covers(value, p))
  {
    if !p.Away? { SolidSelf(Solid(p.parts)); }
  }

  lemma JoinCovers(left: Resolved, l: Path, right: Resolved, r: Path)
    requires Covers(left, l) && Covers(right, r) && !r.Abs?
    ensures Covers(JoinValue(left, right), JoinPath(l, r))
  {
    hide Matches, Solid;
    if left.Known? && !l.Away? && r.Rel? {
      SolidConcat(l.parts, r.parts);
      if right.Unknown? {
        MatchesWild(Solid(r.parts));
        MatchesConcat(left.parts, Solid(l.parts), [WILD], Solid(r.parts));
      } else {
        MatchesConcat(left.parts, Solid(l.parts), right.parts, Solid(r.parts));
      }
    }
  }

  lemma ParentCovers(value: Resolved, p: Path)
    requires Covers(value, p) && (p.Rel? ==> Solid(p.parts) != [])
    ensures Covers(ParentValue(value), ParentPath(p))
  {
    if value.Known? && !p.Away? {
      hide Solid;
      var parts := Solid(p.parts);
      if parts != [] {
        KnownParent(value, parts);
        SolidSelf(parts[..|parts| - 1]);
      }
    }
  }

  lemma {:induction false} ParentsCover(value: Resolved, p: Path, levels: nat)
    requires Covers(value, p) && Tidy(p) == p && ParentsTame(value, p, levels)
    ensures Covers(ParentsValue(value, levels), ParentsPath(p, levels))
    decreases levels
  {
    hide Covers, ParentValue;
    if !value.Known? {
      ParentsStop(value, levels);
      ParentsStray(value, p, levels);
    } else if levels > 0 {
      ParentCovers(value, p);
      ParentTidy(p);
      ParentsCover(ParentValue(value), ParentPath(p), levels - 1);
    }
  }

  lemma {:induction false} ParentsStray(value: Resolved, p: Path, levels: nat)
    requires Covers(value, p) && !value.Known?
    ensures Covers(value, ParentsPath(p, levels))
    decreases levels
  {
    if levels > 0 { ParentsStray(value, ParentPath(p), levels - 1); }
  }

  lemma ParentTidy(p: Path)
    ensures Tidy(ParentPath(p)) == ParentPath(p) && Tidy(Tidy(p)) == Tidy(p)
    ensures Tidy(p).Rel? && Tidy(p).parts != [] ==> ParentPath(p).Rel? && |ParentPath(p).parts| == |Tidy(p).parts| - 1
  {
    if !p.Away? {
      hide Solid;
      var parts := Solid(p.parts);
      SolidSelf(parts);
      if parts != [] { SolidSelf(parts[..|parts| - 1]); } else { SolidSelf([]); }
    }
  }

  lemma {:induction false} StrippedSolid(parts: seq<string>)
    ensures Solid(Stripped(parts)) == Solid(parts)
  {
    if parts != [] && parts[|parts| - 1] == "" {
      var init := parts[..|parts| - 1];
      StrippedSolid(init);
      assert parts == init + [""];
      SolidConcat(init, [""]);
      SolidOne("");
    }
  }

  lemma SolidOne(part: string)
    ensures Solid([part]) == if part == "" || part == "." then [] else [part]
  {
    assert [part][1..] == [];
  }

  lemma SolidInit(init: seq<string>, last: string)
    ensures Solid(init + [last]) == Solid(init) + if last == "" || last == "." then [] else [last]
  {
    SolidConcat(init, [last]);
    SolidOne(last);
  }

  lemma HeadDropsLast(parts: seq<string>)
    requires parts != [] && parts[|parts| - 1] != "" && parts[|parts| - 1] != "."
    ensures var solid := Solid(parts); solid != [] && Solid(Head(parts)) == solid[..|solid| - 1]
  {
    hide Solid, Stripped;
    var init := parts[..|parts| - 1];
    StrippedSolid(init);
    SolidInit(init, parts[|parts| - 1]);
    assert parts == init + [parts[|parts| - 1]];
  }

  lemma DirnameCovers(value: Resolved, p: Path)
    requires Covers(value, p) && (value.Known? ==> DirnameRight(p))
    ensures Covers(ParentValue(value), DirnamePath(p))
  {
    hide Solid, Head, Matches;
    if value.Known? && !p.Away? && p.parts != [] {
      HeadDropsLast(p.parts);
      KnownParent(value, Solid(p.parts));
    }
  }

  /** Dropping the last part on both sides. */
  lemma KnownParent(value: Resolved, parts: seq<string>)
    requires value.Known? && Matches(value.parts, parts) && parts != []
    ensures ParentValue(value).Unknown? ||
            (ParentValue(value).Known? && Matches(ParentValue(value).parts, parts[..|parts| - 1]))
  {
    assert value.parts != [];
    hide Matches;
    if value.parts[|value.parts| - 1] != WILD { MatchesInit(value.parts, parts); }
  }

  lemma TameJoinCovers(left: Resolved, l: Path, right: Resolved, r: Path)
    requires Covers(left, l) && Covers(right, r) && JoinTame(left, right, r)
    ensures Covers(JoinValue(left, right), JoinPath(l, r))
  {
    hide Matches, Solid;
    if !r.Abs? {
      JoinCovers(left, l, right, r);
    } else if left.Known? {
      var parts := Solid(r.parts);
      WildsMatchNothing(left.parts);
      NoneLeft(parts);
      if right.Unknown? { MatchesWild(parts); }
      MatchesConcat(left.parts, [], if right.Unknown? then [WILD] else right.parts, parts);
    }
  }

  /** The resolver is a sound abstraction: wherever a tame expression points inside the checkout, it is covered. */
  lemma {:induction false} Sound(e: Expr, file: seq<FileName>, names: Bindings, w: World, depth: nat)
    requires Tame(e, file, names, w, depth) && Assigned(names, file, w)
    ensures Covers(Resolve(e, file, names, depth), Eval(e, file, w))
    decreases MAX_DEPTH + 1 - depth, 1, e
  {
    hide Covers, LiteralValue, LiteralPath, ParentsValue, ParentsPath, ParentValue, DirnamePath, JoinValue, JoinPath, Tidy;
    hide LiteralRight, DriveOnly, DirnameRight, JoinTame, ParentsTame;
    if depth > MAX_DEPTH {
      CoveredOutright(Eval(e, file, w), []);
    } else {
      match e {
        case Literal(text) => LiteralCoversExactly(text, w);
        case ThisFile => CoveredOutright(Away, file);
        case Cwd => CoveredOutright(Away, []);
        case SafeCall => CoveredOutright(Away, []);
        case Name(id) =>
          if Lookup(names, id).None? {
            CoveredOutright(w.names(id), []);
          } else {
            Sound(names[id].value, file, names, w, depth + 1);
          }
        case Div(l, r) =>
          Sound(l, file, names, w, depth + 1);
          Sound(r, file, names, w, depth + 1);
          TameJoinCovers(Resolve(l, file, names, depth + 1), Eval(l, file, w),
                         Resolve(r, file, names, depth + 1), Eval(r, file, w));
          TidyCovers(Resolve(e, file, names, depth), JoinPath(Eval(l, file, w), Eval(r, file, w)));
        case Join(first, rest) =>
          Sound(first, file, names, w, depth + 1);
          AllSound(Resolve(first, file, names, depth + 1), Eval(first, file, w), rest, file, names, w, depth + 1);
          TidyCovers(Resolve(e, file, names, depth), EvalAll(Eval(first, file, w), rest, file, w));
        case TextJoin(first, rest) =>
          Sound(first, file, names, w, depth + 1);
          AllSound(Resolve(first, file, names, depth + 1), Eval(first, file, w), rest, file, names, w, depth + 1);
        case Same(path) =>
          Sound(path, file, names, w, depth + 1);
          TidyCovers(Resolve(path, file, names, depth + 1), Eval(path, file, w));
        case Parents(path, levels) =>
          Sound(path, file, names, w, depth + 1);
          TidyCovers(Resolve(path, file, names, depth + 1), Eval(path, file, w));
          ParentTidy(Eval(path, file, w));
          ParentsCover(Resolve(path, file, names, depth + 1), Tidy(Eval(path, file, w)), levels);
        case Dirname(path) =>
          Sound(path, file, names, w, depth + 1);
          DirnameCovers(Resolve(path, file, names, depth + 1), Eval(path, file, w));
        case Other(tag) => CoveredOutright(w.others(tag), []);
      }
    }
  }

  lemma {:induction false} AllSound(left: Resolved, l: Path, rest: seq<Expr>, file: seq<FileName>, names: Bindings,
                                    w: World, depth: nat)
    requires Covers(left, l) && Assigned(names, file, w)
    requires TameAll(left, rest, file, names, w, depth)
    ensures Covers(ResolveAll(left, rest, file, names, depth), EvalAll(l, rest, file, w))
    decreases MAX_DEPTH + 1 - depth, 2, rest
  {
    hide Covers, JoinValue, JoinPath, JoinTame, Tame, Resolve, Eval;
    if rest != [] {
      var r := Resolve(rest[0], file, names, depth);
      Sound(rest[0], file, names, w, depth);
      TameJoinCovers(left, l, r, Eval(rest[0], file, w));
      AllSound(JoinValue(left, r), JoinPath(l, Eval(rest[0], file, w)), rest[1..], file, names, w, depth);
    }
  }

  /** What covers a path outright. */
  lemma CoveredOutright(p: Path, parts: seq<Part>)
    ensures Covers(Unknown, p) && Covers(Outside, Away) && Covers(Known(parts), Abs(parts))
  {
    SolidSelf(parts);
    MatchesSelf(parts);
  }

  /** The first part of a text with a drive holds the `:`. */
  lemma DriveInFirstPart(text: string)
    requires |text| >= 2 && !IsSlash(text[0]) && text[1] == ':' && ".." !in Parts(text)
    ensures Solid(Parts(text)) != [] && ':' in Solid(Parts(text))[0]
  {
    var rest := Parts(text[1..]);
    assert text[1..][0] == ':';
    assert rest[0][0] == ':' && Parts(text)[0][1] == ':';
  }

  /** A literal without `..` is read rightly exactly when it points away, or has no drive, no root and no leading `~`. */
  lemma LiteralCoversExactly(text: string, w: World)
    requires ".." !in Parts(text)
    ensures Covers(LiteralValue(text), LiteralPath(text, w)) <==> LiteralRight(text, w)
  {
    DescendPlain([], Parts(text));
    NoneLeft(Solid(Parts(text)));
    if IsAbsolute(text) {
    } else if HasRoot(text) || DriveOnly(text) {
      DriveInFirstPart(text);
      if w.anchored(text).Some? { SolidSelf(w.anchored(text).value); }
    } else {
      MatchesSelf(Solid(Parts(text)));
    }
  }

  /** The path is inside one of the folders. */
  predicate Lands(p: Path, folders: set<string>) {
    !p.Away? && Solid(p.parts) != [] && Solid(p.parts)[0] in folders
  }

  /** So a write that lands in a code folder is never called clean. */
  lemma CodeFolderWritesReported(e: Expr, file: seq<FileName>, names: Bindings, w: World, folders: set<string>)
    requires Tame(e, file, names, w, 0) && Assigned(names, file, w)
    ensures Lands(Eval(e, file, w), folders) ==> Classify(Resolve(e, file, names, 0), folders) != Clean
  {
    hide Resolve, Eval, Tame, Solid;
    Sound(e, file, names, w, 0);
  }

  /** And what is reported as a code folder is one, unless the path is away. */
  lemma ReportIsRight(e: Expr, file: seq<FileName>, names: Bindings, w: World, folders: set<string>)
    requires Tame(e, file, names, w, 0) && Assigned(names, file, w)
    requires Classify(Resolve(e, file, names, 0), folders) == CodeFolder
    ensures Eval(e, file, w).Away? || Lands(Eval(e, file, w), folders)
  {
    hide Resolve, Eval, Tame, Solid;
    Sound(e, file, names, w, 0);
  }

  // ---------------------------------------------------------------- nothing is given up without need

  /** Every part is spelled in the source: bound names, no opaque expression, no `?`, and no deeper than is followed. */
  predicate SpelledOut(e: Expr, names: Bindings, depth: nat)
    decreases MAX_DEPTH + 1 - depth, e
  {
    depth <= MAX_DEPTH &&
    match e
    case Literal(text) => WILD !in Parts(text) && (HasRoot(text) ==> IsAbsolute(text))
    case Name(id) => Lookup(names, id).Some? && SpelledOut(names[id].value, names, depth + 1)
    case Div(l, r) => SpelledOut(l, names, depth + 1) && SpelledOut(r, names, depth + 1)
    case Join(first, rest) =>
      SpelledOut(first, names, depth + 1) && forall i :: 0 <= i < |rest| ==> SpelledOut(rest[i], names, depth + 1)
    case TextJoin(first, rest) =>
      SpelledOut(first, names, depth + 1) && forall i :: 0 <= i < |rest| ==> SpelledOut(rest[i], names, depth + 1)
    case Same(path) => SpelledOut(path, names, depth + 1)
    case Parents(path, _) => SpelledOut(path, names, depth + 1)
    case Dirname(path) => SpelledOut(path, names, depth + 1)
    case Other(_) => false
    case _ => true
  }

  /** The value is the place itself. */
  ghost predicate Exactly(value: Resolved, p: Path) {
    if p.Away? then value.Outside? else value == Known(Solid(p.parts)) && WILD !in Solid(p.parts)
  }

  lemma {:induction false} SolidMembers(parts: seq<string>)
    ensures forall x :: x in Solid(parts) ==> x in parts
  {
    if parts != [] {
      SolidMembers(parts[1..]);
      HeadTail(parts);
    }
  }

  lemma LiteralExact(text: string, w: World)
    requires ".." !in Parts(text) && LiteralRight(text, w) && !DriveOnly(text)
    requires WILD !in Parts(text) && (HasRoot(text) ==> IsAbsolute(text))
    ensures Exactly(LiteralValue(text), LiteralPath(text, w))
  {
    hide Parts, Descend, Solid;
    DescendPlain([], Parts(text));
    NoneLeft(Solid(Parts(text)));
    SolidMembers(Parts(text));
  }

  lemma NoWilds(parts: seq<Part>)
    requires WILD !in parts
    ensures (forall x :: x in parts ==> x == WILD) ==> parts == []
  {
    if parts != [] { assert parts[0] in parts; }
  }

  lemma JoinExact(left: Resolved, l: Path, right: Resolved, r: Path)
    requires Exactly(left, l) && Exactly(right, r) && JoinTame(left, right, r)
    ensures Exactly(JoinValue(left, right), JoinPath(l, r))
  {
    hide Solid;
    if !l.Away? && !r.Away? {
      if r.Rel? {
        SolidConcat(l.parts, r.parts);
      } else {
        NoWilds(left.parts);
        NoneLeft(Solid(r.parts));
      }
    }
  }

  lemma TidyExact(value: Resolved, p: Path)
    requires Exactly(value, p)
    ensures Exactly(value, Tidy(p)) && (Tidy(p).Rel? ==> Exactly(value, Abs(Tidy(p).parts)))
  {
    if !p.Away? { SolidSelf(Solid(p.parts)); }
  }

  lemma ParentExact(value: Resolved, p: Path)
    requires Exactly(value, p) && (p.Rel? ==> Solid(p.parts) != [])
    ensures Exactly(ParentValue(value), ParentPath(p))
  {
    hide Solid;
    if !p.Away? && Solid(p.parts) != [] {
      var parts := Solid(p.parts);
      assert parts[|parts| - 1] in parts;
      SolidSelf(parts[..|parts| - 1]);
    }
  }

  lemma {:induction false} ParentsExact(value: Resolved, p: Path, levels: nat)
    requires Exactly(value, p) && Tidy(p) == p && ParentsTame(value, p, levels)
    ensures Exactly(ParentsValue(value, levels), ParentsPath(p, levels))
    decreases levels
  {
    hide Exactly, ParentValue, ParentPath, Tidy;
    if levels > 0 {
      assert p.Rel? ==> |p.parts| >= levels && Solid(p.parts) == p.parts by { ExactKnown(value, p); }
      ParentExact(value, p);
      ParentTidy(p);
      ExactKnown(value, p);
      ParentsExact(ParentValue(value), ParentPath(p), levels - 1);
    }
  }

  lemma ExactKnown(value: Resolved, p: Path)
    requires Exactly(value, p) && Tidy(p) == p
    ensures p.Rel? ==> value.Known? && Solid(p.parts) == p.parts
    ensures p.Away? ==> ParentPath(p).Away?
    ensures p.Abs? ==> !ParentPath(p).Rel?
  {}

  lemma DirnameExact(value: Resolved, p: Path)
    requires Exactly(value, p) && (value.Known? ==> DirnameRight(p))
    ensures Exactly(ParentValue(value), DirnamePath(p))
  {
    hide Solid, Head;
    if !p.Away? && p.parts != [] {
      HeadDropsLast(p.parts);
      var parts := Solid(p.parts);
      assert parts[|parts| - 1] in parts;
    } else if !p.Away? {
      SolidSelf([]);
    }
  }

  /** What the source spells out is resolved to the very place. */
  lemma {:induction false} ResolveExact(e: Expr, file: seq<FileName>, names: Bindings, w: World, depth: nat)
    requires Tame(e, file, names, w, depth) && Assigned(names, file, w) && SpelledOut(e, names, depth) && WILD !in file
    ensures Exactly(Resolve(e, file, names, depth), Eval(e, file, w))
    decreases MAX_DEPTH + 1 - depth, 1, e
  {
    hide Exactly, LiteralValue, LiteralPath, ParentsValue, ParentsPath, ParentValue, DirnamePath, JoinValue, JoinPath;
    hide LiteralRight, DriveOnly, DirnameRight, JoinTame, ParentsTame, Tidy, HasRoot;
    match e {
      case Literal(text) => LiteralExact(text, w);
      case ThisFile => KnownExact(file);
      case Cwd => KnownExact([]);
      case SafeCall => KnownExact([]);
      case Name(id) => ResolveExact(names[id].value, file, names, w, depth + 1);
      case Div(l, r) =>
        ResolveExact(l, file, names, w, depth + 1);
        ResolveExact(r, file, names, w, depth + 1);
        JoinExact(Resolve(l, file, names, depth + 1), Eval(l, file, w),
                  Resolve(r, file, names, depth + 1), Eval(r, file, w));
        TidyExact(Resolve(e, file, names, depth), JoinPath(Eval(l, file, w), Eval(r, file, w)));
      case Join(first, rest) =>
        ResolveExact(first, file, names, w, depth + 1);
        AllExact(Resolve(first, file, names, depth + 1), Eval(first, file, w), rest, file, names, w, depth + 1);
        TidyExact(Resolve(e, file, names, depth), EvalAll(Eval(first, file, w), rest, file, w));
      case TextJoin(first, rest) =>
        ResolveExact(first, file, names, w, depth + 1);
        AllExact(Resolve(first, file, names, depth + 1), Eval(first, file, w), rest, file, names, w, depth + 1);
      case Same(path) =>
        ResolveExact(path, file, names, w, depth + 1);
        TidyExact(Resolve(path, file, names, depth + 1), Eval(path, file, w));
      case Parents(path, levels) =>
        ResolveExact(path, file, names, w, depth + 1);
        TidyExact(Resolve(path, file, names, depth + 1), Eval(path, file, w));
        ParentTidy(Eval(path, file, w));
        ParentsExact(Resolve(path, file, names, depth + 1), Tidy(Eval(path, file, w)), levels);
      case Dirname(path) =>
        ResolveExact(path, file, names, w, depth + 1);
        DirnameExact(Resolve(path, file, names, depth + 1), Eval(path, file, w));
    }
  }

  lemma KnownExact(parts: seq<Part>)
    requires WILD !in parts
    ensures Exactly(Known(parts), Abs(parts)) && Exactly(Outside, Away)
  {
    SolidSelf(parts);
  }

  lemma {:induction false} AllExact(left: Resolved, l: Path, rest: seq<Expr>, file: seq<FileName>, names: Bindings,
                                    w: World, depth: nat)
    requires Exactly(left, l) && Assigned(names, file, w) && WILD !in file
    requires TameAll(left, rest, file, names, w, depth)
    requires forall i :: 0 <= i < |rest| ==> SpelledOut(rest[i], names, depth)
    ensures Exactly(ResolveAll(left, rest, file, names, depth), EvalAll(l, rest, file, w))
    decreases MAX_DEPTH + 1 - depth, 2, rest
  {
    hide Exactly, JoinValue, JoinPath, JoinTame, Tame, Resolve, Eval, SpelledOut;
    if rest != [] {
      var r := Resolve(rest[0], file, names, depth);
      ResolveExact(rest[0], file, names, w, depth);
      JoinExact(left, l, r, Eval(rest[0], file, w));
      AllExact(JoinValue(left, r), JoinPath(l, Eval(rest[0], file, w)), rest[1..], file, names, w, depth);
    }
  }

  /** So a spelled-out write is reported exactly when it lands in a code folder, and never called unresolved. */
  lemma ReportedExactly(e: Expr, file: seq<FileName>, names: Bindings, w: World, folders: set<string>)
    requires Tame(e, file, names, w, 0) && Assigned(names, file, w) && SpelledOut(e, names, 0) && WILD !in file
    ensures Classify(Resolve(e, file, names, 0), folders) ==
            if Lands(Eval(e, file, w), folders) then CodeFolder else Clean
  {
    hide Resolve, Eval, Tame, SpelledOut, Solid;
    ResolveExact(e, file, names, w, 0);
    var p := Eval(e, file, w);
    if !p.Away? && Solid(p.parts) != [] { assert Solid(p.parts)[0] in Solid(p.parts); }
  }

  // ---------------------------------------------------------------- exactly where it fails

  /** A parent is covered unless the resolver pops the root while the path is relative and stays where it is. */
  lemma ParentCoversExactly(value: Resolved, p: Path)
    requires Covers(value, p)
    ensures Covers(ParentValue(value), ParentPath(p)) <==> !(value == Known([]) && p.Rel?)
  {
    if p.Rel? && Solid(p.parts) == [] {
      if value.Known? && value.parts != [] && value.parts[|value.parts| - 1] != WILD { MatchesInit(value.parts, []); }
    } else {
      ParentCovers(value, p);
    }
  }

  lemma {:induction false} MatchesPlain(pattern: seq<string>, parts: seq<string>)
    requires WILD !in pattern && Matches(pattern, parts)
    ensures pattern == parts
    decreases |pattern|
  {
    if pattern != [] {
      MatchesPlain(pattern[1..], parts[1..]);
      HeadTail(pattern);
      HeadTail(parts);
    }
  }

  /** No file name is `?`; so dirname is followed rightly, whatever value covers the path, exactly under the guard. */
  lemma DirnameCoversExactly(p: Path)
    requires p.Away? || WILD !in p.parts
    ensures (forall value :: Covers(value, p) ==> Covers(ParentValue(value), DirnamePath(p))) <==> DirnameRight(p)
  {
    hide ParentValue, DirnamePath, Covers, Matches;
    if DirnameRight(p) {
      forall value | Covers(value, p) ensures Covers(ParentValue(value), DirnamePath(p)) { DirnameCovers(value, p); }
    } else {
      DirnameLost(p);
    }
  }

  lemma DirnameLost(p: Path)
    requires !DirnameRight(p) && WILD !in p.parts
    ensures Covers(Known(Solid(p.parts)), p) && !Covers(ParentValue(Known(Solid(p.parts))), DirnamePath(p))
  {
    var parts := Solid(p.parts);
    MatchesSelf(parts);
    SolidMembers(p.parts);
    DirnameStays(p);
    hide Solid, DirnamePath, Matches, DirnameRight;
    if parts != [] { NotItsInit(parts); }
  }

  lemma HeadStays(parts: seq<string>)
    requires parts != [] && (parts[|parts| - 1] == "" || parts[|parts| - 1] == ".")
    ensures Solid(Head(parts)) == Solid(parts)
  {
    hide Solid, Stripped;
    var init := parts[..|parts| - 1];
    StrippedSolid(init);
    SolidInit(init, parts[|parts| - 1]);
    assert parts == init + [parts[|parts| - 1]];
    NoneLeft(Solid(init));
  }

  /** Where the guard fails, the dirname is in the same place as the path. */
  lemma DirnameStays(p: Path)
    requires !DirnameRight(p)
    ensures !DirnamePath(p).Away? && Solid(DirnamePath(p).parts) == Solid(p.parts)
  {
    hide Solid, Head;
    if p.parts != [] {
      HeadStays(p.parts);
    }
  }

  lemma NotItsInit(parts: seq<string>)
    requires parts != [] && WILD !in parts
    ensures !Matches(parts[..|parts| - 1], parts)
  {
    hide Matches;
    var init := parts[..|parts| - 1];
    if Matches(init, parts) { MatchesPlain(init, parts); }
  }

  function Spelled(pattern: seq<Part>): seq<Part> {
    if pattern == [] then []
    else (if pattern[0] == WILD then [] else [pattern[0]]) + Spelled(pattern[1..])
  }

  lemma {:induction false} SpelledMatches(pattern: seq<Part>)
    ensures Matches(pattern, Spelled(pattern))
  {
    if pattern != [] {
      SpelledMatches(pattern[1..]);
      NoneLeft(Spelled(pattern[1..]));
    }
  }

  lemma {:induction false} MatchesLonger(pattern: seq<Part>, parts: seq<string>)
    requires Matches(pattern, parts)
    ensures |parts| >= |Spelled(pattern)|
    decreases |pattern|
  {
    if pattern != [] {
      var k := 1;
      if pattern[0] == WILD { k :| 0 <= k <= |parts| && Matches(pattern[1..], parts[k..]); }
      MatchesLonger(pattern[1..], parts[k..]);
    }
  }

  lemma {:induction false} SpelledConcat(a: seq<Part>, b: seq<Part>)
    ensures Spelled(a + b) == Spelled(a) + Spelled(b)
  {
    NoneLeft(b);
    NoneLeft(Spelled(b));
    if a != [] {
      HeadTail(a);
      ConcatLeft(a, b, 1);
      SpelledConcat(a[1..], b);
      NoneLeft(Spelled(a[1..]));
      NoneLeft(Spelled(a[1..] + b));
      Assoc(if a[0] == WILD then [] else [a[0]], Spelled(a[1..]), Spelled(b));
    }
  }

  lemma {:induction false} SpelledNone(a: seq<Part>)
    ensures Spelled(a) == [] <==> forall x :: x in a ==> x == WILD
  {
    if a != [] {
      SpelledNone(a[1..]);
      HeadTail(a);
      assert a[0] in a;
      assert forall x :: x in a <==> x == a[0] || x in a[1..];
    }
  }

  lemma {:induction false} WildsMatchNothing(wilds: seq<Part>)
    requires forall x :: x in wilds ==> x == WILD
    ensures Matches(wilds, [])
  {
    if wilds != [] {
      assert forall x :: x in wilds[1..] ==> x in wilds;
      WildsMatchNothing(wilds[1..]);
      var none: seq<string> := [];
      assert wilds[0] in wilds && none[0..] == none;
      assert Matches(wilds[1..], none[0..]);
    }
  }

  /** A join of the two values covers every join of two paths they cover. */
  ghost predicate JoinSound(left: Resolved, right: Resolved) {
    forall l, r :: Covers(left, l) && Covers(right, r) ==> Covers(JoinValue(left, right), JoinPath(l, r))
  }

  /**
   An absolute right-hand path starts over, and the resolver appends it or stays outside.  So a join is sound
   exactly when the left side is unknown or spells nothing, or the right side is outside.
   */
  lemma JoinCoversExactly(left: Resolved, right: Resolved)
    ensures JoinSound(left, right) <==> JoinHarmless(left, right)
  {
    hide Matches, JoinPath, JoinValue, Covers;
    if JoinHarmless(left, right) {
      forall l, r | Covers(left, l) && Covers(right, r) ensures Covers(JoinValue(left, right), JoinPath(l, r)) {
        TameJoinCovers(left, l, right, r);
      }
    } else {
      var l, r := JoinLost(left, right);
      assert !Covers(JoinValue(left, right), JoinPath(l, r));
    }
  }

  /** Two covered paths whose join is lost. */
  lemma JoinLost(left: Resolved, right: Resolved) returns (l: Path, r: Path)
    requires !JoinHarmless(left, right)
    ensures Covers(left, l) && Covers(right, r) && !Covers(JoinValue(left, right), JoinPath(l, r))
  {
    hide Matches, Solid;
    var parts := if right.Known? then Spelled(right.parts) else [];
    l, r := Away, Abs(parts);
    SolidSelf(parts);
    if right.Known? { SpelledMatches(right.parts); }
    if left.Known? {
      var pattern := left.parts + if right.Known? then right.parts else [WILD];
      SpelledConcat(left.parts, if right.Known? then right.parts else [WILD]);
      SpelledNone(left.parts);
      if Matches(pattern, parts) { MatchesLonger(pattern, parts); }
    }
  }

}
