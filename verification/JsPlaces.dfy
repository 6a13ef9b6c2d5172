/**
 Where the tokens of the JavaScript lexer come from (scripts/usage_track_scan.py): each
 stands at its own place of the text, in order, and carries the line of that place.
 */
module JsPlaces {
  import opened Options
  import opened Seqs
  import opened Brackets
  import opened JsLexer

  // ---------------------------------------------------------------- counting lines

  lemma {:induction false} NewlinesConcat(a: string, b: string)
    ensures Newlines(a + b) == Newlines(a) + Newlines(b)
  {
    if a == "" {
      NoneLeft(b);
    } else {
      ConcatLeft(a, b, 1);
      NewlinesConcat(a[1..], b);
    }
  }

  /** The newlines of a text are the places that hold one. */
  lemma {:induction false} NewlinesAre(s: string)
    ensures Newlines(s) == |set i | 0 <= i < |s| && s[i] == '\n'|
  {
    if s != "" {
      var init, last := s[..|s| - 1], |s| - 1;
      NewlinesAre(init);
      assert s == init + [s[last]];
      NewlinesConcat(init, [s[last]]);
      assert [s[last]][1..] == "";
      var before, now := set i | 0 <= i < |init| && init[i] == '\n', set i | 0 <= i < |s| && s[i] == '\n';
      assert now == before + if s[last] == '\n' then {last} else {};
    }
  }

  /** An escape stands for its second character, and all else for itself. */
  lemma {:induction false} UnescapeIs(a: string, c: char, b: string)
    requires '\\' !in a
    ensures Unescape(a) == a && Unescape(a + ['\\']) == a + ['\\']
    ensures Unescape(a + ['\\', c] + b) == a + [c] + Unescape(b)
  {
    if a == "" {
      assert ['\\', c] + b == "" + ['\\', c] + b;
      assert (['\\', c] + b)[2..] == b && ['\\'][1..] == "" && "" + ['\\'] == ['\\'];
    } else {
      UnescapeIs(a[1..], c, b);
      HeadTail(a);
      ConcatLeft(a, ['\\'], 1);
      Assoc(a, ['\\', c], b);
      ConcatLeft(a, ['\\', c] + b, 1);
      Assoc(a[1..], ['\\', c], b);
      assert a + [c] + Unescape(b) == [a[0]] + (a[1..] + [c] + Unescape(b));
    }
  }

  /** The line of position `pos` of a text that starts at line `base`. */
  function LineAt(text: string, base: nat, pos: nat): nat
    requires pos <= |text|
  {
    base + Newlines(text[..pos])
  }

  lemma LineMoves(text: string, base: nat, pos: nat, stop: nat)
    requires pos <= stop <= |text|
    ensures LineAt(text, base, stop) == LineAt(text, base, pos) + Newlines(text[pos..stop])
  {
    assert text[..stop] == text[..pos] + text[pos..stop];
    NewlinesConcat(text[..pos], text[pos..stop]);
  }

  /** No line ends between `pos` and `stop`. */
  predicate OneLine(text: string, pos: nat, stop: nat)
    requires stop <= |text|
  {
    forall i :: pos <= i < stop ==> text[i] != '\n'
  }

  lemma {:induction false} NoNewlines(s: string)
    requires '\n' !in s
    ensures Newlines(s) == 0
  {
    if s != "" { NoNewlines(s[1..]); }
  }

  lemma LineStays(text: string, base: nat, pos: nat, stop: nat)
    requires pos <= stop <= |text| && OneLine(text, pos, stop)
    ensures LineAt(text, base, stop) == LineAt(text, base, pos)
  {
    LineMoves(text, base, pos, stop);
    NoNewlines(text[pos..stop]);
  }

  lemma {:induction false} ClassOneLine(text: string, pos: nat)
    requires ClassBody(text, pos).Some?
    ensures OneLine(text, pos, ClassBody(text, pos).value)
    decreases |text| - pos
  {
    if text[pos] == '\\' {
      ClassOneLine(text, pos + 2);
    } else if text[pos] != ']' {
      ClassOneLine(text, pos + 1);
    }
  }

  lemma {:induction false} RegexOneLine(text: string, pos: nat)
    requires RegexBody(text, pos).Some?
    ensures OneLine(text, pos, RegexBody(text, pos).value) && text[RegexBody(text, pos).value] == '/'
    decreases |text| - pos
  {
    if text[pos] == '/' {
    } else if text[pos] == '\\' {
      RegexOneLine(text, pos + 2);
    } else if text[pos] == '[' {
      ClassOneLine(text, pos + 1);
      RegexOneLine(text, ClassBody(text, pos + 1).value);
    } else {
      RegexOneLine(text, pos + 1);
    }
  }

  lemma {:induction false} FlagsOneLine(text: string, pos: nat)
    requires pos <= |text|
    ensures OneLine(text, pos, RunEnd(text, pos, AsciiLetter))
    decreases |text| - pos
  {
    if pos < |text| && AsciiLetter(text[pos]) { FlagsOneLine(text, pos + 1); }
  }

  /** A regex literal ends on the line it starts on, so the lexer need not count its lines. */
  lemma LiteralOneLine(text: string, pos: nat)
    requires pos < |text| && text[pos] == '/' && RegexEnd(text, pos).Some?
    ensures OneLine(text, pos, RegexEnd(text, pos).value)
  {
    hide RegexBody, RunEnd;
    RegexOneLine(text, pos + 1);
    FlagsOneLine(text, RegexBody(text, pos + 1).value + 1);
  }

  // ---------------------------------------------------------------- places

  /** A stretch of template text. */
  datatype Piece = Piece(from: nat, upTo: nat)

  /** The stretches unescaped, with `${}` in between. */
  function Joined(text: string, pieces: seq<Piece>): string
    requires forall k :: 0 <= k < |pieces| ==> pieces[k].from <= pieces[k].upTo <= |text|
    decreases |pieces|, 0
  {
    if pieces == [] then ""
    else
      var last := pieces[|pieces| - 1];
      WithHole(text, pieces[..|pieces| - 1]) + Unescape(text[last.from..last.upTo])
  }

  /** The same up to and with the hole after the last stretch. */
  function WithHole(text: string, pieces: seq<Piece>): string
    requires forall k :: 0 <= k < |pieces| ==> pieces[k].from <= pieces[k].upTo <= |text|
    decreases |pieces|, 1
  {
    if pieces == [] then "" else Joined(text, pieces) + HOLE
  }

  /** A stretch runs to where template text stops, which is before the end of the text. */
  predicate IsPiece(text: string, p: Piece) {
    p.from <= p.upTo < |text| && p.upTo == TemplateTextEnd(text, p.from)
  }

  /** A stretch that ends in a hole, whose code ends in the `}` just before `next`. */
  predicate HoleAfter(text: string, p: Piece, next: nat) {
    IsPiece(text, p) && StartsAt(text, p.upTo, "${") && p.upTo + 2 < next <= |text| && text[next - 1] == '}'
  }

  /** The stretches of the template literal at `place` read so far; the next one starts at `pos`. */
  ghost predicate ReadSoFar(text: string, place: nat, pieces: seq<Piece>, pos: nat) {
    && (forall k :: 0 <= k < |pieces| ==> HoleAfter(text, pieces[k], StartOf(pieces, k + 1, pos)))
    && StartOf(pieces, 0, pos) == place + 1
  }

  /** Where stretch `k` starts; the one after the last starts at `pos`. */
  function StartOf(pieces: seq<Piece>, k: nat, pos: nat): nat {
    if k < |pieces| then pieces[k].from else pos
  }

  /** The stretches of a whole template literal: holes between them, a backtick at the end. */
  ghost predicate WholeTemplate(text: string, place: nat, pieces: seq<Piece>) {
    pieces != [] &&
    var last := pieces[|pieces| - 1];
    ReadSoFar(text, place, pieces[..|pieces| - 1], last.from) && IsPiece(text, last) && text[last.upTo] == '`'
  }

  /** The template token holds its literal's text with each hole as `${}`, and counts the holes. */
  ghost predicate TemplateSpelled(text: string, place: nat, t: Tok) {
    exists pieces :: WholeTemplate(text, place, pieces) && Piecewise(text, pieces, t)
  }

  ghost predicate Piecewise(text: string, pieces: seq<Piece>, t: Tok) {
    && (forall k :: 0 <= k < |pieces| ==> pieces[k].from <= pieces[k].upTo <= |text|)
    && t.text == Joined(text, pieces) && t.holes == |pieces| - 1
  }

  /** The token is spelled by the text at `pos`; the content of a template literal still being read is left open. */
  ghost predicate Spelled(text: string, pos: nat, t: Tok, open: bool)
    requires pos < |text|
  {
    match t.kind
    case StrTok => StringEnd(text, pos).Some? && t.text == Unescape(text[pos + 1..StringEnd(text, pos).value - 1])
    case TplTok => text[pos] == '`' && (open || TemplateSpelled(text, pos, t))
    case _ => t.text != "" && StartsAt(text, pos, t.text)
  }

  ghost predicate Placed(text: string, base: nat, t: Tok, pos: nat, open: bool) {
    pos < |text| && t.line == LineAt(text, base, pos) && Spelled(text, pos, t, open)
  }

  /**
   Every token stands at its own place before `upTo`, in the order of the text and on the line of that place;
   the tokens numbered in `open` are template literals still being read.
   */
  ghost predicate AllPlaced(text: string, base: nat, toks: seq<Tok>, places: seq<nat>, open: set<nat>, upTo: nat) {
    && |places| == |toks|
    && (forall i :: 0 <= i < |toks| ==> places[i] < upTo && Placed(text, base, toks[i], places[i], i in open))
    && (forall i, j :: 0 <= i < j < |places| ==> places[i] < places[j])
  }

  /** The lexer at `pos`: its tokens have places and its line is that of `pos`. */
  ghost predicate Tracked(text: string, base: nat, pos: nat, st: LexState, places: seq<nat>, open: set<nat>) {
    pos <= |text| && st.line == LineAt(text, base, pos) && AllPlaced(text, base, st.toks, places, open, pos)
  }

  lemma PlaceLater(text: string, base: nat, toks: seq<Tok>, places: seq<nat>, open: set<nat>, pos: nat, upTo: nat)
    requires AllPlaced(text, base, toks, places, open, pos) && pos <= upTo
    ensures AllPlaced(text, base, toks, places, open, upTo)
  {
    hide Placed;
  }

  lemma PlaceNext(text: string, base: nat, toks: seq<Tok>, places: seq<nat>, open: set<nat>, pos: nat, upTo: nat, t: Tok)
    requires AllPlaced(text, base, toks, places, open, pos) && pos < upTo && Placed(text, base, t, pos, |toks| in open)
    ensures AllPlaced(text, base, toks + [t], places + [pos], open, upTo)
  {
    hide Placed;
  }

  lemma PlaceOpen(text: string, base: nat, toks: seq<Tok>, places: seq<nat>, open: set<nat>, upTo: nat)
    requires AllPlaced(text, base, toks, places, open, upTo)
    ensures AllPlaced(text, base, toks, places, open + {|toks|}, upTo)
  {
    hide Placed;
  }

  /** The template token `index` has been filled in, and is no longer open. */
  lemma PlaceAgain(text: string, base: nat, toks: seq<Tok>, places: seq<nat>, open: set<nat>, upTo: nat, index: nat, t: Tok)
    requires AllPlaced(text, base, toks, places, open + {index}, upTo) && index < |toks|
    requires toks[index].kind == t.kind == TplTok && toks[index].line == t.line
    requires TemplateSpelled(text, places[index], t)
    ensures AllPlaced(text, base, toks[index := t], places, open, upTo)
  {
    assert Placed(text, base, toks[index], places[index], true);
    assert Placed(text, base, t, places[index], index in open);
    hide Placed, TemplateSpelled;
    forall i | 0 <= i < |toks| && i != index ensures Placed(text, base, toks[i], places[i], i in open) {
      assert i in open + {index} <==> i in open;
    }
  }

  // ---------------------------------------------------------------- the lexer keeps track

  lemma ValueSpelled(text: string, uni: Unicode, pos: nat, t: Tok)
    requires pos < |text|
    requires var (kind, stop) := TokenAt(text, pos, uni);
             match kind
             case Str => t.kind == StrTok && t.text == Unescape(text[pos..stop][1..|text[pos..stop]| - 1])
             case Blank => false
             case Comment => false
             case _ => t.kind !in {StrTok, TplTok} && t.text == text[pos..stop]
    ensures forall open :: Spelled(text, pos, t, open)
  {
    hide Unescape, RunEnd, OpAt, StringBody;
    var (kind, stop) := TokenAt(text, pos, uni);
    if kind == Str {
      assert text[pos..stop][1..|text[pos..stop]| - 1] == text[pos + 1..stop - 1];
    }
  }

  lemma TokenTracked(text: string, uni: Unicode, base: nat, pos: nat, st: LexState, places: seq<nat>, open: set<nat>)
    returns (more: seq<nat>)
    requires pos < |text| && Tracked(text, base, pos, st, places, open) && TokenStep(text, uni, pos, st).Some?
    ensures var (stop, after) := TokenStep(text, uni, pos, st).value; Tracked(text, base, stop, after, more, open)
    ensures places <= more
  {
    hide TokenAt, Unescape, Newlines, LineAt, Spelled, AllPlaced;
    var (kind, stop) := TokenAt(text, pos, uni);
    var after := TokenStep(text, uni, pos, st).value.1;
    LineMoves(text, base, pos, stop);
    if kind == Blank || kind == Comment {
      more := places;
      PlaceLater(text, base, st.toks, places, open, pos, stop);
    } else {
      var t := after.toks[|st.toks|];
      ValueSpelled(text, uni, pos, t);
      more := places + [pos];
      PlaceNext(text, base, st.toks, places, open, pos, stop, t);
    }
  }

  lemma OpenTracked(text: string, base: nat, pos: nat, st: LexState, places: seq<nat>, open: set<nat>)
    requires pos < |text| && text[pos] == '`' && Tracked(text, base, pos, st, places, open)
    ensures Tracked(text, base, pos + 1, Pushed(st, TplTok, ""), places + [pos], open + {|st.toks|})
  {
    hide AllPlaced, LineAt, TemplateSpelled;
    LineStays(text, base, pos, pos + 1);
    PlaceOpen(text, base, st.toks, places, open, pos);
    var t := Tok(TplTok, "", st.line, Top(st.braces), 0);
    PlaceNext(text, base, st.toks, places, open + {|st.toks|}, pos, pos + 1, t);
  }

  /** Moving on without a token, by a stretch whose lines are counted. */
  lemma SkipTracked(text: string, base: nat, pos: nat, stop: nat, st: LexState, places: seq<nat>, open: set<nat>)
    requires pos <= stop <= |text| && Tracked(text, base, pos, st, places, open)
    ensures Tracked(text, base, stop, st.(line := st.line + Newlines(text[pos..stop])), places, open)
  {
    hide AllPlaced, LineAt, Newlines;
    LineMoves(text, base, pos, stop);
    PlaceLater(text, base, st.toks, places, open, pos, stop);
  }

  /** Moving on without a token, within a line. */
  lemma StepTracked(text: string, base: nat, pos: nat, stop: nat, st: LexState, places: seq<nat>, open: set<nat>)
    requires pos <= stop <= |text| && OneLine(text, pos, stop) && Tracked(text, base, pos, st, places, open)
    ensures Tracked(text, base, stop, st, places, open)
  {
    hide AllPlaced, LineAt;
    LineStays(text, base, pos, stop);
    PlaceLater(text, base, st.toks, places, open, pos, stop);
  }

  lemma CommentTracked(text: string, base: nat, pos: nat, st: LexState, places: seq<nat>, open: set<nat>)
    requires pos < |text| && FindCommentEnd(text, pos + 2).Some? && Tracked(text, base, pos, st, places, open)
    ensures var close := FindCommentEnd(text, pos + 2).value;
            Tracked(text, base, close + 2, st.(line := st.line + Newlines(text[pos..close])), places, open)
  {
    hide Tracked, Newlines;
    var close := FindCommentEnd(text, pos + 2).value;
    SkipTracked(text, base, pos, close, st, places, open);
    CommentCloses(text, pos + 2);
    StepTracked(text, base, close, close + 2, st.(line := st.line + Newlines(text[pos..close])), places, open);
  }

  lemma {:induction false} CommentCloses(text: string, pos: nat)
    requires FindCommentEnd(text, pos).Some?
    ensures OneLine(text, FindCommentEnd(text, pos).value, FindCommentEnd(text, pos).value + 2)
    decreases |text| - pos
  {
    if StartsAt(text, pos, "*/") {
      assert text[pos] == text[pos..pos + 2][0] && text[pos + 1] == text[pos..pos + 2][1];
    } else {
      CommentCloses(text, pos + 1);
    }
  }

  lemma RegexTracked(text: string, base: nat, pos: nat, st: LexState, places: seq<nat>, open: set<nat>)
    requires pos < |text| && RegexHere(text, pos, st.toks).Some? && Tracked(text, base, pos, st, places, open)
    ensures var stop := RegexHere(text, pos, st.toks).value;
            Tracked(text, base, stop, Pushed(st, RegexTok, text[pos..stop]), places + [pos], open)
  {
    hide RegexEnd, RegexAllowed, AllPlaced, LineAt;
    var stop := RegexHere(text, pos, st.toks).value;
    LiteralOneLine(text, pos);
    LineStays(text, base, pos, stop);
    PlaceNext(text, base, st.toks, places, open, pos, stop, Tok(RegexTok, text[pos..stop], st.line, Top(st.braces), 0));
  }

  lemma CodeStepTracked(text: string, uni: Unicode, base: nat, pos: nat, st: LexState, inHole: bool, depth: nat,
                        places: seq<nat>, open: set<nat>) returns (more: seq<nat>)
    requires pos < |text| && Tracked(text, base, pos, st, places, open) && Ok(st)
    ensures var m := CodeStep(text, uni, pos, st, inHole, depth);
            !m.Fail? ==> Tracked(text, base, m.pos, m.st, more, open) && places <= more
    decreases |text| + 3 - pos, 0
  {
    hide TokenStep, TemplateSpec, RegexHere, StringEnd, FindCommentEnd, Newlines, Tracked, Ok, Pushed;
    hide ReadSoFar, WithHole;
    more := places;
    var m := CodeStep(text, uni, pos, st, inHole, depth);
    if m.Leave? {
      StepTracked(text, base, pos, pos + 1, st, places, open);
    } else if m.Go? {
      if text[pos] == '`' {
        OpenTracked(text, base, pos, st, places, open);
        PushedOk(st, TplTok, "");
        PushedLine(st, TplTok, "");
        NothingRead(text, pos);
        PlacesCount(text, base, pos + 1, Pushed(st, TplTok, ""), places + [pos], open + {|st.toks|});
        more := TemplateTracked(text, uni, base, pos + 1, Pushed(st, TplTok, ""), |st.toks|, "", 0, st.line,
                                places + [pos], open, []);
      } else if StartsAt(text, pos, "/*") {
        CommentTracked(text, base, pos, st, places, open);
      } else if RegexHere(text, pos, st.toks).Some? {
        RegexTracked(text, base, pos, st, places, open);
        more := places + [pos];
      } else {
        more := TokenTracked(text, uni, base, pos, st, places, open);
      }
    }
  }

  lemma PushedLine(st: LexState, kind: Kind, value: string)
    ensures Pushed(st, kind, value).toks[|st.toks|].line == st.line
  {}

  /** Code and the holes inside it keep every token at its place and the line exact. */
  lemma {:induction false} CodeTracked(text: string, uni: Unicode, base: nat, pos: nat, st: LexState, inHole: bool,
                                       depth: nat, places: seq<nat>, open: set<nat>) returns (more: seq<nat>)
    requires pos <= |text| && Tracked(text, base, pos, st, places, open) && Ok(st) && (inHole ==> depth <= |st.braces|)
    requires CodeSpec(text, uni, pos, st, inHole, depth).Some?
    ensures var (stop, after) := CodeSpec(text, uni, pos, st, inHole, depth).value;
            Tracked(text, base, stop, after, more, open) && places <= more
    decreases |text| + 3 - pos, 1
  {
    hide Tracked, CodeStep, Ok;
    more := places;
    if pos < |text| {
      more := CodeStepTracked(text, uni, base, pos, st, inHole, depth, places, open);
      CodeStepOk(text, uni, pos, st, inHole, depth);
      var m := CodeStep(text, uni, pos, st, inHole, depth);
      if m.Go? { more := CodeTracked(text, uni, base, m.pos, m.st, inHole, depth, more, open); }
    }
  }

  /**
   A template literal: the stretches read so far are `pieces`, and `index` stops being open when its token is
   filled in.
   */
  lemma {:induction false} TemplateTracked(text: string, uni: Unicode, base: nat, pos: nat, st: LexState, index: nat,
                                           parts: string, holes: nat, openLine: nat, places: seq<nat>,
                                           open: set<nat>, pieces: seq<Piece>)
    returns (more: seq<nat>)
    requires pos <= |text| && index < |st.toks| && Tracked(text, base, pos, st, places, open + {index}) && Ok(st)
    requires st.toks[index].kind == TplTok && st.toks[index].line == openLine && |places| == |st.toks|
    requires ReadSoFar(text, places[index], pieces, pos) && Gathered(text, pieces, parts, holes)
    requires TemplateSpec(text, uni, pos, st, index, parts, holes, openLine).Some?
    ensures var (stop, after) := TemplateSpec(text, uni, pos, st, index, parts, holes, openLine).value;
            Tracked(text, base, stop, after, more, open) && places <= more
    decreases |text| + 3 - pos, 2
  {
    hide TemplateTextEnd, CodeSpec, Unescape, Newlines, Ok, AllPlaced, LineAt, ReadSoFar, Gathered, HoleAfter;
    var stop := TemplateTextEnd(text, pos);
    var text' := parts + Unescape(text[pos..stop]);
    var counted := st.(line := st.line + Newlines(text[pos..stop]));
    var piece := Piece(pos, stop);
    SkipTracked(text, base, pos, stop, st, places, open + {index});
    if text[stop] == '`' {
      more := places;
      var literal := Tok(TplTok, text', openLine, st.toks[index].block, holes);
      StepTracked(text, base, stop, stop + 1, counted, places, open + {index});
      LiteralSpelled(text, places[index], pieces, piece, parts, literal);
      PlaceAgain(text, base, st.toks, places, open, stop + 1, index, literal);
    } else {
      LineOnly(st, counted.line);
      HoleOpens(text, uni, pos, counted);
      StepTracked(text, base, stop, stop + 2, counted, places, open + {index});
      var hole := CodeSpec(text, uni, stop + 2, counted, true, |st.braces|);
      CodeOk(text, uni, stop + 2, counted, true, |st.braces|);
      HoleCloses(text, uni, stop + 2, counted, |st.braces|);
      more := CodeTracked(text, uni, base, stop + 2, counted, true, |st.braces|, places, open + {index});
      assert IsPiece(text, piece);
      HoleEnds(text, piece, hole.value.0);
      OneMore(text, places[index], pieces, piece, hole.value.0, parts, holes);
      PlacesCount(text, base, hole.value.0, hole.value.1, more, open + {index});
      more := TemplateTracked(text, uni, base, hole.value.0, hole.value.1, index, text' + HOLE, holes + 1, openLine,
                              more, open, pieces + [piece]);
    }
  }

  /** What has been gathered from the stretches read so far: their text with the holes, and how many holes. */
  ghost predicate Gathered(text: string, pieces: seq<Piece>, parts: string, holes: nat) {
    && (forall k :: 0 <= k < |pieces| ==> pieces[k].from <= pieces[k].upTo <= |text|)
    && parts == WithHole(text, pieces) && holes == |pieces|
  }

  lemma NothingRead(text: string, place: nat)
    ensures ReadSoFar(text, place, [], place + 1) && Gathered(text, [], "", 0)
  {}

  lemma PlacesCount(text: string, base: nat, pos: nat, st: LexState, places: seq<nat>, open: set<nat>)
    requires Tracked(text, base, pos, st, places, open)
    ensures |places| == |st.toks|
  {}

  lemma LiteralSpelled(text: string, place: nat, pieces: seq<Piece>, last: Piece, parts: string, t: Tok)
    requires ReadSoFar(text, place, pieces, last.from) && Gathered(text, pieces, parts, t.holes)
    requires IsPiece(text, last) && text[last.upTo] == '`'
    requires t.text == parts + Unescape(text[last.from..last.upTo])
    ensures TemplateSpelled(text, place, t)
  {
    hide IsPiece, ReadSoFar, Unescape;
    var all := pieces + [last];
    assert all[..|all| - 1] == pieces;
    PieceBounds(text, last);
    JoinedAppend(text, pieces, last);
    assert WholeTemplate(text, place, all) && Piecewise(text, all, t);
  }

  lemma PieceBounds(text: string, p: Piece)
    requires IsPiece(text, p)
    ensures p.from <= p.upTo < |text|
  {}

  lemma HoleEnds(text: string, p: Piece, next: nat)
    requires IsPiece(text, p) && StartsAt(text, p.upTo, "${") && p.upTo + 2 < next <= |text| && text[next - 1] == '}'
    ensures HoleAfter(text, p, next)
  {}

  lemma OneMore(text: string, place: nat, pieces: seq<Piece>, p: Piece, next: nat, parts: string, holes: nat)
    requires ReadSoFar(text, place, pieces, p.from) && Gathered(text, pieces, parts, holes) && HoleAfter(text, p, next)
    ensures ReadSoFar(text, place, pieces + [p], next)
    ensures Gathered(text, pieces + [p], parts + Unescape(text[p.from..p.upTo]) + HOLE, holes + 1)
  {
    assert IsPiece(text, p);
    PieceBounds(text, p);
    hide HoleAfter, IsPiece, Unescape;
    var all := pieces + [p];
    forall k | 0 <= k < |all| ensures HoleAfter(text, all[k], StartOf(all, k + 1, next)) {
      if k < |pieces| { assert HoleAfter(text, pieces[k], StartOf(pieces, k + 1, p.from)); }
    }
    JoinedAppend(text, pieces, p);
  }

  lemma JoinedAppend(text: string, pieces: seq<Piece>, p: Piece)
    requires forall k :: 0 <= k < |pieces| ==> pieces[k].from <= pieces[k].upTo <= |text|
    requires p.from <= p.upTo <= |text|
    ensures Joined(text, pieces + [p]) == WithHole(text, pieces) + Unescape(text[p.from..p.upTo])
    ensures WithHole(text, pieces + [p]) == WithHole(text, pieces) + Unescape(text[p.from..p.upTo]) + HOLE
  {
    hide Unescape;
    var all := pieces + [p];
    assert all[..|all| - 1] == pieces && all[|all| - 1] == p;
  }

  /** A hole's code ends just after a `}`. */
  lemma {:induction false} HoleCloses(text: string, uni: Unicode, pos: nat, st: LexState, depth: nat)
    requires pos <= |text| && CodeSpec(text, uni, pos, st, true, depth).Some?
    ensures var stop := CodeSpec(text, uni, pos, st, true, depth).value.0; pos < stop <= |text| && text[stop - 1] == '}'
    decreases |text| - pos
  {
    hide CodeStep;
    LeavesAtBrace(text, uni, pos, st, depth);
    var m := CodeStep(text, uni, pos, st, true, depth);
    if m.Go? { HoleCloses(text, uni, m.pos, m.st, depth); }
  }

  lemma LeavesAtBrace(text: string, uni: Unicode, pos: nat, st: LexState, depth: nat)
    requires pos < |text|
    ensures CodeStep(text, uni, pos, st, true, depth).Leave? ==> text[pos] == '}'
  {
    hide TokenStep, TemplateSpec, RegexHere, StringEnd, FindCommentEnd, Newlines, Pushed;
  }

  lemma HoleOpens(text: string, uni: Unicode, pos: nat, st: LexState)
    requires pos <= |text| && TemplateTextEnd(text, pos) < |text| && text[TemplateTextEnd(text, pos)] != '`'
    requires CodeSpec(text, uni, TemplateTextEnd(text, pos) + 2, st, true, |st.braces|).Some?
    ensures var stop := TemplateTextEnd(text, pos);
            stop + 2 <= |text| && StartsAt(text, stop, "${") && OneLine(text, stop, stop + 2)
  {
    StopsAt(text, pos);
  }

  /** Template text stops at a backtick, a hole or a lone final backslash. */
  lemma {:induction false} StopsAt(text: string, pos: nat)
    requires pos <= |text| && TemplateTextEnd(text, pos) < |text| && text[TemplateTextEnd(text, pos)] != '`'
    ensures var stop := TemplateTextEnd(text, pos);
            (stop + 1 == |text| && text[stop] == '\\') || (stop + 2 <= |text| && text[stop] == '$' && text[stop + 1] == '{')
    decreases |text| - pos
  {
    if text[pos] == '\\' {
      if pos + 1 < |text| { StopsAt(text, pos + 2); }
    } else if StartsAt(text, pos, "${") {
      assert text[pos] == text[pos..pos + 2][0] && text[pos + 1] == text[pos..pos + 2][1];
    } else {
      StopsAt(text, pos + 1);
    }
  }

  /**
   When lexing succeeds every token stands at a place of its own, in the order of the
   text, is spelled there and carries that place's line; the line count ends exact.
   */
  lemma TokensHavePlaces(text: string, uni: Unicode, base: nat) returns (places: seq<nat>)
    ensures var r := LexSpec(text, uni, base);
            r.Some? ==> AllPlaced(text, base, r.value.toks, places, {}, |text|) && r.value.line == LineAt(text, base, |text|)
  {
    hide CodeSpec;
    places := [];
    if LexSpec(text, uni, base).Some? {
      EmptyConsistent();
      EndsAtEnd(text, uni, 0, LexState(base, [], [], map[]));
      NoneLeft(text);
      places := CodeTracked(text, uni, base, 0, LexState(base, [], [], map[]), false, 0, [], {});
    }
  }

  lemma {:induction false} EndsAtEnd(text: string, uni: Unicode, pos: nat, st: LexState)
    requires pos <= |text| && CodeSpec(text, uni, pos, st, false, 0).Some?
    ensures CodeSpec(text, uni, pos, st, false, 0).value.0 == |text|
    decreases |text| - pos
  {
    hide CodeStep;
    if pos < |text| {
      var m := CodeStep(text, uni, pos, st, false, 0);
      EndsAtEnd(text, uni, m.pos, m.st);
    }
  }
}
