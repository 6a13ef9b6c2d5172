/** Slicing facts about sequences, stated once so that proofs can name them. */
module Seqs {

  lemma TakeDrop<T>(s: seq<T>, n: nat, k: nat)
    requires k <= n <= |s|
    ensures s[..n][k..] == s[k..][..n - k]
  {}

  lemma TakeTake<T>(s: seq<T>, n: nat, k: nat)
    requires k <= n <= |s|
    ensures s[..n][..k] == s[..k]
  {}

  lemma DropDrop<T>(s: seq<T>, i: nat, j: nat)
    requires i + j <= |s|
    ensures s[i..][j..] == s[i + j..]
  {}

  lemma Split<T>(s: seq<T>, n: nat)
    requires n <= |s|
    ensures s == s[..n] + s[n..]
  {}

  lemma HeadTail<T>(s: seq<T>)
    requires s != []
    ensures s == [s[0]] + s[1..]
  {}

  /** Dropping and taking inside the left part of a concatenation. */
  lemma ConcatLeft<T>(p: seq<T>, t: seq<T>, n: nat)
    requires n <= |p|
    ensures (p + t)[n..] == p[n..] + t
    ensures (p + t)[..n] == p[..n]
  {}

  /** Dropping and taking past the left part of a concatenation. */
  lemma ConcatRight<T>(p: seq<T>, t: seq<T>, n: nat)
    requires n <= |t|
    ensures (p + t)[|p| + n..] == t[n..]
    ensures (p + t)[..|p| + n] == p + t[..n]
  {}

  lemma Assoc<T>(a: seq<T>, b: seq<T>, c: seq<T>)
    ensures (a + b) + c == a + (b + c)
  {}

  lemma NoneLeft<T>(s: seq<T>)
    ensures s[|s|..] == [] && s[..|s|] == s && s[0..] == s && s[..0] == []
    ensures [] + s == s && s + [] == s
  {}

  /** The parts joined in order. */
  function Flatten<T>(parts: seq<seq<T>>): seq<T> {
    if parts == [] then [] else parts[0] + Flatten(parts[1..])
  }

  lemma {:induction false} FlattenAppend<T>(parts: seq<seq<T>>, last: seq<T>)
    ensures Flatten(parts + [last]) == Flatten(parts) + last
  {
    NoneLeft(last);
    if parts == [] {
      assert parts + [last] == [last] && [last][1..] == [];
    } else {
      ConcatLeft(parts, [last], 1);
      FlattenAppend(parts[1..], last);
      Assoc(parts[0], Flatten(parts[1..]), last);
    }
  }
}
