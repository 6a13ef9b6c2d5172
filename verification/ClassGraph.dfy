/**
 Following base classes by name (scripts/dead_code_ratchet.py): two depth-first
 searches that carry the set of names on the current path, over a class graph that may
 have cycles, shared names and bases from outside the repository.
 */
module ClassGraph {
  import opened Seqs

  type Classes = map<string, seq<string>>

  /** Bases inherited from nowhere in particular (`object`, `ABC`, ...): never followed. */
  type Inert = set<string>

  // ---------------------------------------------------------------- the searches

  /** Depth first over the bases: true at the first name the repository does not define, unless it is inert. */
  function ExternalBase(bases: seq<string>, classes: Classes, inert: Inert, seen: set<string>): bool
    decreases classes.Keys - seen, |bases|
  {
    if bases == [] then false
    else
      var base := bases[0];
      if base in inert || base in seen then ExternalBase(bases[1..], classes, inert, seen)
      else if base !in classes then true
      else
        assert classes.Keys - (seen + {base}) < classes.Keys - seen by { assert base in classes.Keys - seen; }
        ExternalBase(classes[base], classes, inert, seen + {base}) || ExternalBase(bases[1..], classes, inert, seen)
  }

  /** Depth first over the bases: true at the first target, entering no class that is on the path already. */
  function Inherits(bases: seq<string>, targets: set<string>, classes: Classes, seen: set<string>): bool
    decreases classes.Keys - seen, |bases|
  {
    if bases == [] then false
    else
      var base := bases[0];
      if base in targets then true
      else if base in classes && base !in seen then
        assert classes.Keys - (seen + {base}) < classes.Keys - seen by { assert base in classes.Keys - seen; }
        Inherits(classes[base], targets, classes, seen + {base}) || Inherits(bases[1..], targets, classes, seen)
      else Inherits(bases[1..], targets, classes, seen)
  }

  // ---------------------------------------------------------------- paths

  /** A chain of names: the first is one of `bases`, and each next is a base of the repo class before it. */
  ghost predicate IsPath(p: seq<string>, bases: seq<string>, classes: Classes)
    decreases |p|
  {
    p != [] && p[0] in bases && (|p| > 1 ==> p[0] in classes && IsPath(p[1..], classes[p[0]], classes))
  }

  ghost predicate Avoids(p: seq<string>, names: set<string>) {
    forall x :: x in p ==> x !in names
  }

  ghost predicate Simple(p: seq<string>) {
    forall i, j :: 0 <= i < j < |p| ==> p[i] != p[j]
  }

  function LastOf(p: seq<string>): string
    requires p != []
  {
    p[|p| - 1]
  }

  /** What the searches ask: some target, or some outside name, at the end of a chain. */
  ghost predicate ReachesTarget(bases: seq<string>, targets: set<string>, classes: Classes) {
    exists p :: IsPath(p, bases, classes) && LastOf(p) in targets
  }

  ghost predicate ReachesOutside(bases: seq<string>, classes: Classes, inert: Inert) {
    exists p :: IsPath(p, bases, classes) && Avoids(p, inert) && LastOf(p) !in classes
  }

  // ---------------------------------------------------------------- shortening a path

  /** The rest of a path from its last visit to `p[k]`, entered from wherever `p[k]` is listed. */
  lemma {:induction false} PathSuffix(p: seq<string>, bases: seq<string>, classes: Classes, k: nat)
    requires IsPath(p, bases, classes) && k < |p|
    ensures p[k] in classes && k + 1 < |p| ==> IsPath(p[k + 1..], classes[p[k]], classes)
    ensures k + 1 < |p| ==> p[k] in classes
  {
    if k > 0 {
      PathSuffix(p[1..], classes[p[0]], classes, k - 1);
      DropDrop(p, 1, k);
    }
  }

  /** Replacing the head of a path by the suffix that starts at a later visit of the same name. */
  lemma SkipLoop(p: seq<string>, bases: seq<string>, classes: Classes, k: nat)
    requires IsPath(p, bases, classes) && 0 < k < |p| && p[k] == p[0]
    ensures IsPath(p[k..], bases, classes) && LastOf(p[k..]) == LastOf(p) && |p[k..]| < |p|
    ensures forall x :: x in p[k..] ==> x in p
  {
    PathSuffix(p, bases, classes, k);
    if k + 1 < |p| { DropDrop(p, k, 1); }
  }

  /** Every path has a simple one with the same end, using none but its names. */
  lemma {:induction false} SimplePath(p: seq<string>, bases: seq<string>, classes: Classes) returns (q: seq<string>)
    requires IsPath(p, bases, classes)
    ensures IsPath(q, bases, classes) && Simple(q) && LastOf(q) == LastOf(p)
    ensures forall x :: x in q ==> x in p
    decreases |p|
  {
    if k :| 0 < k < |p| && p[k] == p[0] {
      SkipLoop(p, bases, classes, k);
      q := SimplePath(p[k..], bases, classes);
    } else if |p| == 1 {
      q := p;
    } else {
      var rest := SimplePath(p[1..], classes[p[0]], classes);
      q := [p[0]] + rest;
      assert q[1..] == rest;
      assert p[0] !in p[1..];
      assert LastOf(q) == LastOf(rest) && LastOf(p) == LastOf(p[1..]);
    }
  }

  // ---------------------------------------------------------------- the searches decide reachability

  lemma {:induction false} InheritsSound(bases: seq<string>, targets: set<string>, classes: Classes, seen: set<string>)
    returns (p: seq<string>)
    requires Inherits(bases, targets, classes, seen)
    ensures IsPath(p, bases, classes) && LastOf(p) in targets
    decreases classes.Keys - seen, |bases|
  {
    var base := bases[0];
    if base in targets {
      p := [base];
    } else if base in classes && base !in seen && Inherits(classes[base], targets, classes, seen + {base}) {
      assert base in classes.Keys - seen;
      var rest := InheritsSound(classes[base], targets, classes, seen + {base});
      p := [base] + rest;
      assert p[1..] == rest;
    } else {
      p := InheritsSound(bases[1..], targets, classes, seen);
      assert p[0] in bases;
    }
  }

  /** A simple path that stays off the names already on the search path is found. */
  lemma {:induction false} InheritsComplete(bases: seq<string>, targets: set<string>, classes: Classes, seen: set<string>,
                                            p: seq<string>)
    requires IsPath(p, bases, classes) && Simple(p) && LastOf(p) in targets
    requires |p| > 1 ==> Avoids(p[..|p| - 1], seen)
    ensures Inherits(bases, targets, classes, seen)
    decreases classes.Keys - seen, |bases|
  {
    var base := bases[0];
    if base == p[0] && |p| > 1 && base !in targets {
      var rest := p[1..];
      assert base == p[..|p| - 1][0];
      assert base in classes.Keys - seen;
      forall x | x in rest[..|rest| - 1] ensures x !in seen + {base} {
        var i :| 0 <= i < |rest| - 1 && rest[i] == x;
        assert p[..|p| - 1][i + 1] == x;
      }
      InheritsComplete(classes[base], targets, classes, seen + {base}, rest);
    } else if base != p[0] && base !in targets {
      HeadTail(bases);
      assert p[0] in bases[1..];
      InheritsComplete(bases[1..], targets, classes, seen, p);
    }
  }

  /** In any class graph, cycles included: the search from an empty path finds a target exactly when one is reachable. */
  lemma InheritsDecides(bases: seq<string>, targets: set<string>, classes: Classes)
    ensures Inherits(bases, targets, classes, {}) <==> ReachesTarget(bases, targets, classes)
  {
    if Inherits(bases, targets, classes, {}) {
      var p := InheritsSound(bases, targets, classes, {});
    }
    if p :| IsPath(p, bases, classes) && LastOf(p) in targets {
      var q := SimplePath(p, bases, classes);
      InheritsComplete(bases, targets, classes, {}, q);
    }
  }

  lemma {:induction false} ExternalSound(bases: seq<string>, classes: Classes, inert: Inert, seen: set<string>)
    returns (p: seq<string>)
    requires ExternalBase(bases, classes, inert, seen)
    ensures IsPath(p, bases, classes) && Avoids(p, inert) && LastOf(p) !in classes
    decreases classes.Keys - seen, |bases|
  {
    var base := bases[0];
    if base in inert || base in seen {
      p := ExternalSound(bases[1..], classes, inert, seen);
    } else if base !in classes {
      p := [base];
    } else if ExternalBase(classes[base], classes, inert, seen + {base}) {
      assert base in classes.Keys - seen;
      var rest := ExternalSound(classes[base], classes, inert, seen + {base});
      p := [base] + rest;
      assert p[1..] == rest;
    } else {
      p := ExternalSound(bases[1..], classes, inert, seen);
    }
  }

  lemma {:induction false} ExternalComplete(bases: seq<string>, classes: Classes, inert: Inert, seen: set<string>,
                                            p: seq<string>)
    requires IsPath(p, bases, classes) && Simple(p) && Avoids(p, inert) && Avoids(p, seen) && LastOf(p) !in classes
    ensures ExternalBase(bases, classes, inert, seen)
    decreases classes.Keys - seen, |bases|
  {
    var base := bases[0];
    assert p[0] in p;
    if base == p[0] && |p| > 1 {
      var rest := p[1..];
      assert base in classes.Keys - seen;
      forall x | x in rest ensures x in p && x != base {
        var i :| 0 <= i < |rest| && rest[i] == x;
        assert p[i + 1] == x;
      }
      ExternalComplete(classes[base], classes, inert, seen + {base}, rest);
    } else if base != p[0] {
      HeadTail(bases);
      assert p[0] in bases[1..];
      ExternalComplete(bases[1..], classes, inert, seen, p);
    }
  }

  /** The search answers exactly whether a non-inert outside name is reachable through non-inert repo classes. */
  lemma ExternalDecides(bases: seq<string>, classes: Classes, inert: Inert)
    ensures ExternalBase(bases, classes, inert, {}) <==> ReachesOutside(bases, classes, inert)
  {
    if ExternalBase(bases, classes, inert, {}) {
      var p := ExternalSound(bases, classes, inert, {});
    }
    if p :| IsPath(p, bases, classes) && Avoids(p, inert) && LastOf(p) !in classes {
      var q := SimplePath(p, bases, classes);
      ExternalComplete(bases, classes, inert, {}, q);
    }
  }
}
