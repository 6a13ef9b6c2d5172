/**
 Tracking of DECSET 2004 (bracketed paste) off the output stream of a PTY
 (src/session_host_text.py): the last `ESC [ ? 2004 h|l` seen, in a stream that
 arrives in arbitrary chunks.
 */
module BracketedPaste {
  import opened Options
  import opened Seqs

  const ESC: char := '\U{1B}'
  const PREFIX: string := [ESC] + "[?2004"
  const CARRY_MAX: nat := 8

  /** A complete sequence at the front of `s`. */
  predicate SequenceAt(s: string) {
    |s| >= 8 && s[..7] == PREFIX && (s[7] == 'h' || s[7] == 'l')
  }

  /** Every mode change in `s`, in order: `true` is enable.  The reference the scan is proved against. */
  function Modes(s: string): seq<bool> {
    if s == "" then []
    else (if SequenceAt(s) then [s[7] == 'h'] else []) + Modes(s[1..])
  }

  function Last(modes: seq<bool>): Option<bool> {
    if modes == [] then None else Some(modes[|modes| - 1])
  }

  /** A proper start of a sequence that runs to the end of the data. */
  predicate IsHeld(s: string) {
    0 < |s| <= 7 && s == PREFIX[..|s|]
  }

  /** The leftmost held-back fragment of `s`, or "". */
  function Held(s: string): (h: string)
    ensures h == "" || IsHeld(h)
  {
    if s == "" || IsHeld(s) then s else Held(s[1..])
  }

  /** The last eight characters. */
  function Tail(s: string): string {
    if |s| <= CARRY_MAX then s else s[|s| - CARRY_MAX..]
  }

  /** Eight characters of tail always hold the whole fragment. */
  lemma {:induction false} TailSuffices(s: string)
    ensures Held(Tail(s)) == Held(s)
  {
    if |s| > CARRY_MAX {
      TailSuffices(s[1..]);
      DropDrop(s, 1, |s| - CARRY_MAX - 1);
    }
  }

  lemma EscFirst(s: string)
    requires SequenceAt(s) || IsHeld(s)
    ensures s[0] == ESC
  {
    if SequenceAt(s) { assert s[0] == s[..7][0]; }
  }

  /** Sequences do not overlap: the only ESC of a sequence is its first character. */
  lemma NoOverlap(s: string, k: nat)
    requires SequenceAt(s) && 0 < k < 8
    ensures !SequenceAt(s[k..])
  {
    assert k < 7 ==> s[k] == s[..7][k] == PREFIX[k];
    if SequenceAt(s[k..]) { EscFirst(s[k..]); }
  }

  lemma {:induction false} SkipInside(s: string, k: nat)
    requires SequenceAt(s) && 1 <= k <= 8
    ensures Modes(s[1..]) == Modes(s[k..])
  {
    if k > 1 {
      SkipInside(s, k - 1);
      NoOverlap(s, k - 1);
      DropDrop(s, k - 1, 1);
    }
  }

  /** One read: the last mode completed in it, if any, and the new carry. */
  method ScanBracketedPasteMode(chunk: string, carry: string) returns (latest: Option<bool>, newCarry: string)
    ensures latest == Last(Modes(carry + chunk))
    ensures newCarry == Held(carry + chunk)
  {
    hide Modes, Held, Tail, SequenceAt;
    if carry == "" && ESC !in chunk {
      NoEsc(chunk);
      NoneLeft(chunk);
      return None, "";
    }
    var data := carry + chunk;
    latest := None;
    var pos := 0;
    ghost var seen: seq<bool> := [];
    NoneLeft(data);
    NoneLeft(Modes(data));
    while pos < |data|
      invariant pos <= |data|
      invariant Modes(data) == seen + Modes(data[pos..]) && latest == Last(seen)
    {
      NextMode(data, pos);
      if SequenceAt(data[pos..]) {
        var on := data[pos + 7] == 'h';
        Assoc(seen, [on], Modes(data[pos + 8..]));
        latest := Some(on);
        seen := seen + [on];
        pos := pos + 8;
      } else {
        pos := pos + 1;
      }
      assert latest == Last(seen);
    }
    assert data[pos..] == "";
    NoModes();
    NoneLeft(seen);
    TailSuffices(data);
    newCarry := Held(Tail(data));
  }

  lemma NoModes()
    ensures Modes("") == []
  {}

  lemma NextMode(data: string, pos: nat)
    requires pos < |data|
    ensures SequenceAt(data[pos..]) ==>
              pos + 8 <= |data| && Modes(data[pos..]) == [data[pos + 7] == 'h'] + Modes(data[pos + 8..])
    ensures !SequenceAt(data[pos..]) ==> Modes(data[pos..]) == Modes(data[pos + 1..])
  {
    var rest := data[pos..];
    DropDrop(data, pos, 1);
    if SequenceAt(rest) {
      SkipInside(rest, 8);
      DropDrop(data, pos, 8);
    }
  }

  lemma {:induction false} NoEsc(s: string)
    requires ESC !in s
    ensures Modes(s) == [] && Held(s) == ""
  {
    if s != "" {
      if SequenceAt(s) || IsHeld(s) { EscFirst(s); }
      NoEsc(s[1..]);
    }
  }

  // ---------------------------------------------------------------- what a mode change is

  /** `ESC [ ? 2 0 0 4 h` at position `i` turns the mode on, the same with `l` turns it off. */
  predicate ModeAt(s: string, i: nat, on: bool) {
    i + 8 <= |s| && s[i..i + 8] == [ESC, '[', '?', '2', '0', '0', '4', if on then 'h' else 'l']
  }

  lemma ModeHere(s: string, on: bool)
    ensures SequenceAt(s) && (s[7] == 'h') == on <==> ModeAt(s, 0, on)
  {
    if |s| >= 8 { assert s[0..8] == s[..7] + [s[7]]; }
  }

  lemma ModeLater(s: string, i: nat, on: bool)
    requires s != ""
    ensures ModeAt(s, i + 1, on) <==> ModeAt(s[1..], i, on)
  {
    if i + 9 <= |s| { assert s[1..][i..i + 8] == s[i + 1..i + 9]; }
  }

  ghost predicate NoModeFrom(s: string, start: nat) {
    forall i, on :: i >= start ==> !ModeAt(s, i, on)
  }

  lemma NoModeTail(s: string, start: nat)
    requires s != ""
    ensures NoModeFrom(s, start + 1) <==> NoModeFrom(s[1..], start)
  {
    hide ModeAt;
    forall i: nat, on { ModeLater(s, i, on); }
    if NoModeFrom(s[1..], start) {
      forall i: nat, on | i >= start + 1 ensures !ModeAt(s, i, on) { ModeLater(s, i - 1, on); }
    }
  }

  lemma {:induction false} ModesNone(s: string)
    ensures Modes(s) == [] <==> NoModeFrom(s, 0)
  {
    hide ModeAt, SequenceAt;
    ModeHere(s, true);
    ModeHere(s, false);
    if s != "" {
      ModesNone(s[1..]);
      NoModeTail(s, 0);
    } else {
      forall i: nat, on ensures !ModeAt(s, i, on) { hide *; NothingAt(i, on); }
    }
  }

  lemma NothingAt(i: nat, on: bool)
    ensures !ModeAt("", i, on)
  {}

  ghost predicate LastAt(s: string, i: nat, on: bool) {
    ModeAt(s, i, on) && NoModeFrom(s, i + 1)
  }

  lemma LastLater(s: string, i: nat, on: bool)
    requires s != ""
    ensures LastAt(s, i + 1, on) <==> LastAt(s[1..], i, on)
  {
    ModeLater(s, i, on);
    NoModeTail(s, i + 1);
  }

  /** The last mode is the one whose sequence stands last in the text. */
  lemma {:induction false} LastModeExactly(s: string, on: bool)
    ensures Last(Modes(s)) == Some(on) <==> exists i: nat :: LastAt(s, i, on)
  {
    hide ModeAt, SequenceAt, NoModeFrom, LastAt;
    if s == "" {
      forall i: nat ensures !LastAt(s, i, on) { NothingLast(i, on); }
    } else {
      var tail := s[1..];
      LastModeExactly(tail, on);
      LastOfTail(s);
      LastHere(s, on);
      if i: nat :| LastAt(tail, i, on) {
        LastLater(s, i, on);
      }
      if i: nat :| LastAt(s, i, on) {
        if i > 0 { LastLater(s, i - 1, on); }
      }
      if Modes(tail) == [] { forall i: nat ensures !LastAt(tail, i, on) { NoneLast(tail, i, on); } }
    }
  }

  lemma NothingLast(i: nat, on: bool)
    ensures !LastAt("", i, on)
  {}

  lemma NoneLast(s: string, i: nat, on: bool)
    requires Modes(s) == []
    ensures !LastAt(s, i, on)
  {
    hide Modes, ModeAt;
    ModesNone(s);
  }

  /** The sequence at the front is the last one when nothing follows it. */
  lemma LastHere(s: string, on: bool)
    requires s != ""
    ensures LastAt(s, 0, on) <==> Modes(s[1..]) == [] && SequenceAt(s) && (s[7] == 'h') == on
  {
    hide Modes, ModeAt, SequenceAt, NoModeFrom;
    ModeHere(s, on);
    ModesNone(s[1..]);
    NoModeTail(s, 0);
  }

  lemma LastOfTail(s: string)
    requires s != ""
    ensures Last(Modes(s)) ==
            if Modes(s[1..]) != [] then Last(Modes(s[1..])) else if SequenceAt(s) then Some(s[7] == 'h') else None
  {}

  // ---------------------------------------------------------------- chunking does not matter

  lemma HeldPrefix(p: string, t: string)
    requires p != "" && IsHeld(p + t)
    ensures IsHeld(p)
  {
    TakeTake(PREFIX, |p| + |t|, |p|);
    ConcatLeft(p, t, |p|);
    NoneLeft(p);
  }

  /** Cutting after `p`: nothing that straddles the cut is missed, and nothing is counted twice. */
  lemma {:induction false} CutTransparent(p: string, t: string)
    ensures Modes(p + t) == Modes(p) + Modes(Held(p) + t)
    ensures Held(p + t) == Held(Held(p) + t)
  {
    NoneLeft(t);
    if p == "" {
    } else if IsHeld(p) {
      ShortHasNoModes(p);
    } else {
      CutTransparent(p[1..], t);
      ConcatLeft(p, t, 1);
      if |p| >= 8 {
        ConcatLeft(p, t, 7);
      } else {
        ConcatLeft(p, t, |p|);
        NoneLeft(p);
        if SequenceAt(p + t) { TakeTake(p + t, 7, |p|); }
      }
      assert SequenceAt(p + t) == SequenceAt(p);
      if IsHeld(p + t) { HeldPrefix(p, t); }
      Assoc(if SequenceAt(p) then [p[7] == 'h'] else [], Modes(p[1..]), Modes(Held(p) + t));
    }
  }

  lemma {:induction false} ShortHasNoModes(s: string)
    requires |s| < 8
    ensures Modes(s) == []
  {
    if s != "" { ShortHasNoModes(s[1..]); }
  }

  /** Every mode change a run over `chunks` reports, and the last carry. */
  function ScanRun(chunks: seq<string>, carry: string): (seq<bool>, string) {
    if chunks == [] then ([], carry)
    else
      var rest := ScanRun(chunks[1..], Held(carry + chunks[0]));
      (Modes(carry + chunks[0]) + rest.0, rest.1)
  }

  lemma {:induction false} RunFrom(chunks: seq<string>, before: string)
    ensures Modes(before + Flatten(chunks)) == Modes(before) + ScanRun(chunks, Held(before)).0
    ensures Held(before + Flatten(chunks)) == ScanRun(chunks, Held(before)).1
    decreases |chunks|
  {
    NoneLeft(before);
    NoneLeft(Modes(before));
    if chunks != [] {
      var next := before + chunks[0];
      CutTransparent(before, chunks[0]);
      RunFrom(chunks[1..], next);
      Assoc(before, chunks[0], Flatten(chunks[1..]));
      Assoc(Modes(before), Modes(Held(before) + chunks[0]), ScanRun(chunks[1..], Held(next)).0);
    }
  }

  /** Any chunking reports exactly the mode changes of the whole stream, each once, and holds back the same tail. */
  lemma ChunkingDoesNotMatter(chunks: seq<string>)
    ensures ScanRun(chunks, "") == (Modes(Flatten(chunks)), Held(Flatten(chunks)))
  {
    RunFrom(chunks, "");
    NoneLeft(Flatten(chunks));
    NoneLeft(ScanRun(chunks, "").0);
  }
}
