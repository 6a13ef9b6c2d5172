/**
 The bracket structure a token list carries: which `}` closes which `{`, and the
 innermost `{` around each token (scripts/usage_track_scan.py, `closes` and `Tok.block`).
 */
module Brackets {
  import opened Seqs

  datatype Kind = NameTok | StrTok | TplTok | NumTok | RegexTok | OpTok | PunctTok

  /** A token; `block` is the token number of the nearest `{` still open at it, or -1. */
  datatype Tok = Tok(kind: Kind, text: string, line: nat, block: int, holes: nat)

  predicate Opens(t: Tok) { t.kind == PunctTok && t.text == "{" }
  predicate Closes(t: Tok) { t.kind == PunctTok && t.text == "}" }

  /** `{` number `i` is open at position `j`: it comes before, and has not been closed up to there. */
  predicate Around(braces: seq<nat>, closes: map<nat, nat>, i: nat, j: nat) {
    i < j && (i in braces || (i in closes && j < closes[i]))
  }

  /** `b` is the innermost `{` around position `j`. */
  ghost predicate Innermost(braces: seq<nat>, closes: map<nat, nat>, b: int, j: nat) {
    && (b == -1 || (b >= 0 && Around(braces, closes, b, j)))
    && forall i: nat :: Around(braces, closes, i, j) ==> i <= b
  }

  /** Every recorded pair is a `{` before its `}`, and every `}` belongs to one pair. */
  ghost predicate Paired(toks: seq<Tok>, closes: map<nat, nat>) {
    && (forall i :: i in closes ==> IsPair(toks, i, closes[i]))
    && OneToOne(closes) && NoStray(toks, closes)
  }

  /** Every `}` is somebody's partner. */
  ghost predicate NoStray(toks: seq<Tok>, closes: map<nat, nat>) {
    forall j :: 0 <= j < |toks| && Closes(toks[j]) ==> j in closes.Values
  }

  ghost predicate OneToOne(closes: map<nat, nat>) {
    forall i, j :: i in closes && j in closes && closes[i] == closes[j] ==> i == j
  }

  predicate IsPair(toks: seq<Tok>, i: nat, j: nat) {
    i < j < |toks| && Opens(toks[i]) && Closes(toks[j])
  }

  /** Two pairs are nested or disjoint. */
  ghost predicate NonCrossing(closes: map<nat, nat>) {
    forall i, j :: i in closes && j in closes && i < j ==> closes[i] < j || closes[j] < closes[i]
  }

  /** The stack holds unclosed `{` tokens in order. */
  ghost predicate StackMembers(toks: seq<Tok>, braces: seq<nat>, closes: map<nat, nat>) {
    && (forall k :: 0 <= k < |braces| ==> braces[k] < |toks| && Opens(toks[braces[k]]) && braces[k] !in closes)
    && (forall k, m :: 0 <= k < m < |braces| ==> braces[k] < braces[m])
  }

  /** Every `{` is open or closed. */
  ghost predicate StackComplete(toks: seq<Tok>, braces: seq<nat>, closes: map<nat, nat>) {
    forall j :: 0 <= j < |toks| && Opens(toks[j]) ==> j in braces || j in closes
  }

  /** No open brace lies inside a closed pair. */
  ghost predicate StackOutside(braces: seq<nat>, closes: map<nat, nat>) {
    forall i, b :: i in closes && b in braces ==> closes[i] < b || b < i
  }

  ghost predicate OpenStack(toks: seq<Tok>, braces: seq<nat>, closes: map<nat, nat>) {
    StackMembers(toks, braces, closes) && StackComplete(toks, braces, closes) && StackOutside(braces, closes)
  }

  ghost predicate BlocksOk(toks: seq<Tok>, braces: seq<nat>, closes: map<nat, nat>) {
    forall j :: 0 <= j < |toks| ==> Innermost(braces, closes, toks[j].block, j)
  }

  /** What holds of the lexer's fields at every point. */
  ghost predicate Consistent(toks: seq<Tok>, braces: seq<nat>, closes: map<nat, nat>) {
    && Paired(toks, closes) && NonCrossing(closes)
    && OpenStack(toks, braces, closes) && BlocksOk(toks, braces, closes)
  }

  function Top(braces: seq<nat>): int {
    if braces == [] then -1 else braces[|braces| - 1]
  }

  lemma EmptyConsistent()
    ensures Consistent([], [], map[])
  {}

  lemma TopInnermost(toks: seq<Tok>, braces: seq<nat>, closes: map<nat, nat>)
    requires Paired(toks, closes) && OpenStack(toks, braces, closes)
    ensures Innermost(braces, closes, Top(braces), |toks|)
  {
    hide Opens, Closes;
  }

  lemma PairedGrow(toks: seq<Tok>, closes: map<nat, nat>, t: Tok)
    requires Paired(toks, closes) && !Closes(t)
    ensures Paired(toks + [t], closes)
  {
    hide Opens, Closes;
  }

  lemma StackGrow(toks: seq<Tok>, braces: seq<nat>, closes: map<nat, nat>, t: Tok)
    requires OpenStack(toks, braces, closes) && !Opens(t)
    ensures OpenStack(toks + [t], braces, closes)
  {
    hide Opens;
  }

  lemma BlocksGrow(toks: seq<Tok>, braces: seq<nat>, closes: map<nat, nat>, t: Tok)
    requires BlocksOk(toks, braces, closes) && Innermost(braces, closes, t.block, |toks|)
    ensures BlocksOk(toks + [t], braces, closes)
  {
    hide Innermost;
  }

  /** Appending any token but a brace keeps the structure. */
  lemma AppendPlain(toks: seq<Tok>, braces: seq<nat>, closes: map<nat, nat>, t: Tok)
    requires Consistent(toks, braces, closes) && !Opens(t) && !Closes(t) && t.block == Top(braces)
    ensures Consistent(toks + [t], braces, closes)
  {
    hide Opens, Closes, Paired, OpenStack, NonCrossing, BlocksOk;
    TopInnermost(toks, braces, closes);
    PairedGrow(toks, closes, t);
    StackGrow(toks, braces, closes, t);
    BlocksGrow(toks, braces, closes, t);
  }

  lemma PairedReplace(toks: seq<Tok>, closes: map<nat, nat>, j: nat, t: Tok)
    requires Paired(toks, closes) && j < |toks|
    requires !Opens(toks[j]) && !Closes(toks[j]) && !Opens(t) && !Closes(t)
    ensures Paired(toks[j := t], closes)
  {
    hide Opens, Closes;
  }

  lemma StackReplace(toks: seq<Tok>, braces: seq<nat>, closes: map<nat, nat>, j: nat, t: Tok)
    requires OpenStack(toks, braces, closes) && j < |toks| && !Opens(toks[j]) && !Opens(t)
    ensures OpenStack(toks[j := t], braces, closes)
  {
    hide Opens, StackOutside;
  }

  /** Replacing a token's text and hole count by another plain token's keeps the structure. */
  lemma ReplacePlain(toks: seq<Tok>, braces: seq<nat>, closes: map<nat, nat>, j: nat, t: Tok)
    requires Consistent(toks, braces, closes) && j < |toks|
    requires !Opens(toks[j]) && !Closes(toks[j]) && !Opens(t) && !Closes(t) && t.block == toks[j].block
    ensures Consistent(toks[j := t], braces, closes)
  {
    hide Innermost, Opens, Closes, NonCrossing, Paired, OpenStack;
    PairedReplace(toks, closes, j, t);
    StackReplace(toks, braces, closes, j, t);
  }

  lemma MembersPush(toks: seq<Tok>, braces: seq<nat>, closes: map<nat, nat>, t: Tok)
    requires StackMembers(toks, braces, closes) && Opens(t) && |toks| !in closes
    ensures StackMembers(toks + [t], braces + [|toks|], closes)
  {
    hide Opens;
  }

  lemma CompletePush(toks: seq<Tok>, braces: seq<nat>, closes: map<nat, nat>, t: Tok)
    requires StackComplete(toks, braces, closes)
    ensures StackComplete(toks + [t], braces + [|toks|], closes)
  {
    hide Opens;
    var more := braces + [|toks|];
    assert more[|braces|] == |toks|;
    assert forall x :: x in braces ==> x in more;
  }

  lemma StackPush(toks: seq<Tok>, braces: seq<nat>, closes: map<nat, nat>, t: Tok)
    requires Paired(toks, closes) && OpenStack(toks, braces, closes)
    requires Opens(t)
    ensures OpenStack(toks + [t], braces + [|toks|], closes)
  {
    hide Opens, Closes, StackMembers, StackComplete;
    MembersPush(toks, braces, closes, t);
    CompletePush(toks, braces, closes, t);
    assert forall x :: x in braces + [|toks|] <==> x in braces || x == |toks|;
  }

  lemma BlocksPush(toks: seq<Tok>, braces: seq<nat>, closes: map<nat, nat>, t: Tok)
    requires BlocksOk(toks, braces, closes) && Innermost(braces, closes, t.block, |toks|)
    ensures BlocksOk(toks + [t], braces + [|toks|], closes)
  {
    forall j | 0 <= j <= |toks| ensures Innermost(braces + [|toks|], closes, (toks + [t])[j].block, j) {
      var b := (toks + [t])[j].block;
      assert Innermost(braces, closes, b, j);
      assert forall i: nat :: Around(braces + [|toks|], closes, i, j) <==> Around(braces, closes, i, j);
    }
  }

  /** A `{` token opens a block. */
  lemma AppendOpen(toks: seq<Tok>, braces: seq<nat>, closes: map<nat, nat>, t: Tok)
    requires Consistent(toks, braces, closes) && Opens(t) && t.block == Top(braces)
    ensures Consistent(toks + [t], braces + [|toks|], closes)
  {
    assert !Closes(t);
    hide Opens, Closes, Paired, OpenStack, NonCrossing, BlocksOk;
    TopInnermost(toks, braces, closes);
    PairedGrow(toks, closes, t);
    StackPush(toks, braces, closes, t);
    BlocksPush(toks, braces, closes, t);
  }

  lemma ValuesAdd(closes: map<nat, nat>, b: nat, n: nat)
    requires b !in closes
    ensures closes[b := n].Values == closes.Values + {n}
  {
    var more := closes[b := n];
    assert more[b] == n;
    forall v | v in closes.Values ensures v in more.Values {
      var i :| i in closes && closes[i] == v;
      assert more[i] == v;
    }
  }

  lemma OneToOneAdd(closes: map<nat, nat>, b: nat, n: nat)
    requires OneToOne(closes) && forall i :: i in closes ==> closes[i] < n
    ensures OneToOne(closes[b := n])
  {}

  lemma PairedClose(toks: seq<Tok>, closes: map<nat, nat>, b: nat, t: Tok)
    requires Paired(toks, closes) && Closes(t) && b !in closes && b < |toks| && Opens(toks[b])
    ensures Paired(toks + [t], closes[b := |toks|])
  {
    hide Opens, Closes, OneToOne;
    var all, more := toks + [t], closes[b := |toks|];
    forall i | i in closes ensures closes[i] < |toks| && IsPair(all, i, closes[i]) {
      assert IsPair(toks, i, closes[i]);
    }
    assert IsPair(all, b, |toks|);
    ValuesAdd(closes, b, |toks|);
    OneToOneAdd(closes, b, |toks|);
    hide IsPair;
  }

  lemma StackPop(toks: seq<Tok>, braces: seq<nat>, closes: map<nat, nat>, t: Tok)
    requires Paired(toks, closes) && OpenStack(toks, braces, closes) && braces != [] && !Opens(t)
    ensures OpenStack(toks + [t], braces[..|braces| - 1], closes[braces[|braces| - 1] := |toks|])
  {
    hide Opens, Closes, Paired;
    var b := braces[|braces| - 1];
    var rest := braces[..|braces| - 1];
    assert forall x :: x in braces <==> x in rest || x == b by { Split(braces, |braces| - 1); }
    assert forall x :: x in rest ==> x < b;
    assert StackMembers(toks + [t], rest, closes[b := |toks|]);
    hide StackMembers;
  }

  /** Closing the innermost open brace at `n` changes nothing around earlier tokens, and pops it after. */
  lemma AroundPop(braces: seq<nat>, closes: map<nat, nat>, n: nat, i: nat, j: nat)
    requires braces != [] && j <= n && braces[|braces| - 1] < n && braces[|braces| - 1] !in closes
    requires braces[|braces| - 1] !in braces[..|braces| - 1]
    requires i in closes ==> closes[i] < n
    ensures j < n ==> (Around(braces[..|braces| - 1], closes[braces[|braces| - 1] := n], i, j) <==>
                       Around(braces, closes, i, j))
    ensures j == n ==> (Around(braces[..|braces| - 1], closes[braces[|braces| - 1] := n], i, j) <==>
                        i in braces[..|braces| - 1] && i < n)
  {
    Split(braces, |braces| - 1);
    assert i in braces <==> i in braces[..|braces| - 1] || i == braces[|braces| - 1];
  }

  lemma BlocksPop(toks: seq<Tok>, braces: seq<nat>, closes: map<nat, nat>, t: Tok)
    requires Paired(toks, closes) && StackMembers(toks, braces, closes) && BlocksOk(toks, braces, closes)
    requires braces != [] && t.block == Top(braces[..|braces| - 1])
    ensures BlocksOk(toks + [t], braces[..|braces| - 1], closes[braces[|braces| - 1] := |toks|])
  {
    var n, rest, more := |toks|, braces[..|braces| - 1], closes[braces[|braces| - 1] := |toks|];
    forall i | i in closes ensures closes[i] < n { assert IsPair(toks, i, closes[i]); }
    hide Opens, Closes, StackMembers, Paired, Around, Innermost;
    forall j | 0 <= j < n ensures Innermost(rest, more, toks[j].block, j) {
      forall i: nat ensures Around(rest, more, i, j) <==> Around(braces, closes, i, j) {
        AroundPop(braces, closes, n, i, j);
      }
    }
    forall i: nat ensures Around(rest, more, i, n) <==> i in rest && i < n { AroundPop(braces, closes, n, i, n); }
  }

  /** A `}` token closes the innermost open block. */
  lemma AppendClose(toks: seq<Tok>, braces: seq<nat>, closes: map<nat, nat>, t: Tok)
    requires Consistent(toks, braces, closes) && Closes(t) && braces != []
    requires t.block == Top(braces[..|braces| - 1])
    ensures Consistent(toks + [t], braces[..|braces| - 1], closes[braces[|braces| - 1] := |toks|])
  {
    assert !Opens(t);
    hide Opens, Closes, Paired, NonCrossing, BlocksOk;
    PairedClose(toks, closes, braces[|braces| - 1], t);
    BlocksPop(toks, braces, closes, t);
    StackPop(toks, braces, closes, t);
  }

  // ---------------------------------------------------------------- the finished structure

  /** The result: `closes` pairs all `{` with all `}`, without crossing, and every block is the innermost `{`. */
  ghost predicate WellBracketed(toks: seq<Tok>, closes: map<nat, nat>) {
    && (forall j: nat :: j in closes <==> j < |toks| && Opens(toks[j]))
    && Paired(toks, closes) && NonCrossing(closes)
    && BlocksOk(toks, [], closes)
  }

  lemma Finished(toks: seq<Tok>, closes: map<nat, nat>)
    requires Consistent(toks, [], closes)
    ensures WellBracketed(toks, closes)
  {
    hide BlocksOk;
  }

  lemma Partner(toks: seq<Tok>, closes: map<nat, nat>, j: nat) returns (k: nat)
    requires Paired(toks, closes) && j < |toks| && Closes(toks[j])
    ensures k in closes && closes[k] == j && k < j
  {
    assert j in closes.Values;
    hide NoStray;
    k :| k in closes && closes[k] == j;
    assert IsPair(toks, k, j);
  }

  /** Inside a `{` that `c` closes before `d` does there is another. */
  lemma NextEarlier(toks: seq<Tok>, c: map<nat, nat>, d: map<nat, nat>, i: nat) returns (k: nat)
    requires Paired(toks, c) && Paired(toks, d) && NonCrossing(c) && NonCrossing(d) && c.Keys == d.Keys
    requires i in c && c[i] < d[i]
    ensures k in c && c[k] < d[k] && i < k && d[k] < d[i]
  {
    hide Opens, Closes, OneToOne, NoStray;
    assert IsPair(toks, i, c[i]);
    k := Partner(toks, d, c[i]);
    hide Paired, IsPair;
    assert i in d && k in c;
  }

  /** A `{` that one pairing closes before the other does is impossible. */
  lemma {:induction false} NoEarlier(toks: seq<Tok>, c: map<nat, nat>, d: map<nat, nat>, i: nat)
    requires Paired(toks, c) && Paired(toks, d) && NonCrossing(c) && NonCrossing(d) && c.Keys == d.Keys
    requires i in c && c[i] < d[i]
    ensures false
    decreases d[i]
  {
    hide Paired, NonCrossing;
    var k := NextEarlier(toks, c, d, i);
    NoEarlier(toks, c, d, k);
  }

  /** The tokens alone determine the pairing: bijective and non-crossing leaves no choice. */
  lemma PairingUnique(toks: seq<Tok>, c: map<nat, nat>, d: map<nat, nat>)
    requires WellBracketed(toks, c) && WellBracketed(toks, d)
    ensures c == d
  {
    hide Paired, NonCrossing, BlocksOk, Opens;
    assert c.Keys == d.Keys;
    forall i | i in c ensures c[i] == d[i] {
      if c[i] < d[i] {
        NoEarlier(toks, c, d, i);
      } else if d[i] < c[i] {
        NoEarlier(toks, d, c, i);
      }
    }
  }
}
