/**
 The JavaScript lexer of the usage-track scan (scripts/usage_track_scan.py): it lists the
 tokens of a text, pairs the braces among them, and re-enters code mode in the `${}` holes
 of template literals.

 The source's token patterns are written as recognisers over (text, position); all of
 them are deterministic, so greedy matching with backtracking finds what they find.
 A raised NotConfirmed is the result None.
 */
module JsLexer {
  import opened Options
  import opened Seqs
  import opened Brackets

  /** The Unicode classes behind `\s`, `\d` and `\w`. */
  datatype Unicode = Unicode(space: char -> bool, digit: char -> bool, word: char -> bool)

  const OPS: seq<string> := ["===", "!==", "==", "!=", "<=", ">=", "=>", "&&=", "||=", "??=", "&&", "||", "??", "?.",
                             "++", "--", "+=", "-=", "*=", "..."]
  const REGEX_AFTER_WORD: set<string> := {"return", "typeof", "instanceof", "in", "of", "new", "delete", "void",
                                          "throw", "case", "do", "else", "yield", "await"}
  const HOLE: string := "${}"

  // ---------------------------------------------------------------- recognisers

  predicate StartsAt(text: string, pos: nat, s: string) {
    pos + |s| <= |text| && text[pos..pos + |s|] == s
  }

  /** End of the longest run of characters in a class. */
  function RunEnd(text: string, pos: nat, inClass: char -> bool): (end: nat)
    requires pos <= |text|
    ensures pos <= end <= |text|
    decreases |text| - pos
  {
    if pos < |text| && inClass(text[pos]) then RunEnd(text, pos + 1, inClass) else pos
  }

  /** Position of the next `*` `/`, if there is one. */
  function FindCommentEnd(text: string, pos: nat): (end: Option<nat>)
    ensures end.Some? ==> pos <= end.value && end.value + 2 <= |text|
    decreases |text| - pos
  {
    if pos + 2 > |text| then None
    else if StartsAt(text, pos, "*/") then Some(pos)
    else FindCommentEnd(text, pos + 1)
  }

  /** End of a string body and its closing quote. */
  function StringBody(text: string, pos: nat, quote: char): (end: Option<nat>)
    ensures end.Some? ==> pos < end.value <= |text|
    decreases |text| - pos
  {
    if pos >= |text| || text[pos] == '\n' then None
    else if text[pos] == quote then Some(pos + 1)
    else if text[pos] == '\\' then if pos + 1 < |text| then StringBody(text, pos + 2, quote) else None
    else StringBody(text, pos + 1, quote)
  }

  function StringEnd(text: string, pos: nat): (end: Option<nat>)
    requires pos < |text|
    ensures end.Some? ==> pos + 1 < end.value <= |text|
  {
    if text[pos] == '"' || text[pos] == '\'' then StringBody(text, pos + 1, text[pos]) else None
  }

  function ClassBody(text: string, pos: nat): (end: Option<nat>)
    ensures end.Some? ==> pos < end.value <= |text|
    decreases |text| - pos
  {
    if pos >= |text| || text[pos] == '\n' then None
    else if text[pos] == ']' then Some(pos + 1)
    else if text[pos] == '\\' then
      if pos + 1 < |text| && text[pos + 1] != '\n' then ClassBody(text, pos + 2) else None
    else ClassBody(text, pos + 1)
  }

  /** End of a regex body, at its closing slash. */
  function RegexBody(text: string, pos: nat): (end: Option<nat>)
    ensures end.Some? ==> pos <= end.value < |text|
    decreases |text| - pos
  {
    if pos >= |text| || text[pos] == '\n' then None
    else if text[pos] == '/' then Some(pos)
    else if text[pos] == '\\' then
      if pos + 1 < |text| && text[pos + 1] != '\n' then RegexBody(text, pos + 2) else None
    else if text[pos] == '[' then
      if ClassBody(text, pos + 1).Some? then RegexBody(text, ClassBody(text, pos + 1).value) else None
    else RegexBody(text, pos + 1)
  }

  predicate AsciiLetter(c: char) { 'a' <= c <= 'z' || 'A' <= c <= 'Z' }

  /** A regex literal: a non-empty body that does not start a comment, then flags. */
  function RegexEnd(text: string, pos: nat): (end: Option<nat>)
    requires pos < |text|
    ensures end.Some? ==> pos + 1 < end.value <= |text|
  {
    if pos + 1 < |text| && text[pos + 1] != '*' && text[pos + 1] != '/' && RegexBody(text, pos + 1).Some? then
      Some(RunEnd(text, RegexBody(text, pos + 1).value + 1, AsciiLetter))
    else None
  }

  /** Template text up to a backtick, a hole, a lone final backslash or the end. */
  function TemplateTextEnd(text: string, pos: nat): (end: nat)
    requires pos <= |text|
    ensures pos <= end <= |text|
    decreases |text| - pos
  {
    if pos >= |text| || text[pos] == '`' then pos
    else if text[pos] == '\\' then if pos + 1 < |text| then TemplateTextEnd(text, pos + 2) else pos
    else if StartsAt(text, pos, "${") then pos
    else TemplateTextEnd(text, pos + 1)
  }

  predicate HighName(c: char) { '\U{80}' <= c <= '\U{FFFF}' }

  predicate NameStart(c: char) { AsciiLetter(c) || c == '_' || c == '$' || HighName(c) }

  /** The first operator of the list that the text starts with. */
  function OpAt(text: string, pos: nat, ops: seq<string>): (op: string)
    ensures op == "" || (op in ops && StartsAt(text, pos, op))
  {
    if ops == [] then "" else if StartsAt(text, pos, ops[0]) then ops[0] else OpAt(text, pos, ops[1..])
  }

  datatype Lexeme = Blank | Comment | Str | Name | Number | Op | Punct

  /** The token at `pos`: the alternatives in the source's order. */
  function TokenAt(text: string, pos: nat, uni: Unicode): (m: (Lexeme, nat))
    requires pos < |text|
    ensures pos < m.1 <= |text|
    ensures m.0 == Punct ==> m.1 == pos + 1
    ensures m.0 == Str ==> pos + 2 <= m.1
  {
    var c := text[pos];
    if c != '\n' && uni.space(c) then (Blank, RunEnd(text, pos + 1, (d: char) => d != '\n' && uni.space(d)))
    else if c == '\n' then (Blank, pos + 1)
    else if StartsAt(text, pos, "//") then (Comment, RunEnd(text, pos + 2, (d: char) => d != '\n'))
    else if StringEnd(text, pos).Some? then (Str, StringEnd(text, pos).value)
    else if NameStart(c) then (Name, RunEnd(text, pos + 1, (d: char) => uni.word(d) || d == '$' || HighName(d)))
    else if uni.digit(c) || (c == '.' && pos + 1 < |text| && uni.digit(text[pos + 1])) then
      (Number, RunEnd(text, if uni.digit(c) then pos + 1 else pos + 2, (d: char) => uni.word(d) || d == '.'))
    else if OpAt(text, pos, OPS) != "" then (Op, pos + |OpAt(text, pos, OPS)|)
    else (Punct, pos + 1)
  }

  /** Drops every backslash that has a character after it, and keeps that character. */
  function Unescape(raw: string): string {
    if raw == "" then ""
    else if raw[0] == '\\' && |raw| > 1 then [raw[1]] + Unescape(raw[2..])
    else [raw[0]] + Unescape(raw[1..])
  }

  function Newlines(s: string): nat {
    if s == "" then 0 else (if s[0] == '\n' then 1 else 0) + Newlines(s[1..])
  }

  // ---------------------------------------------------------------- the lexer as a function

  /** The lexer's fields: line, tokens, open `{` indexes, and `{` index -> `}` index. */
  datatype LexState = LexState(line: nat, toks: seq<Tok>, braces: seq<nat>, closes: map<nat, nat>)

  function Pushed(st: LexState, kind: Kind, value: string): (r: LexState)
    ensures |r.toks| == |st.toks| + 1
  {
    st.(toks := st.toks + [Tok(kind, value, st.line, Top(st.braces), 0)])
  }

  /** Punctuation: only `{` and `}` move the brace stack; a `}` with no `{` fails. */
  function PunctStep(st: LexState, c: char): (r: Option<LexState>)
    ensures r.Some? ==> |r.value.toks| == |st.toks| + 1
  {
    if c == '{' then Some(Pushed(st, PunctTok, [c]).(braces := st.braces + [|st.toks|]))
    else if c == '}' then
      if st.braces == [] then None
      else
        var rest := st.braces[..|st.braces| - 1];
        var closed := st.(braces := rest, closes := st.closes[st.braces[|st.braces| - 1] := |st.toks|]);
        Some(Pushed(closed, PunctTok, [c]))
    else Some(Pushed(st, PunctTok, [c]))
  }

  function TokenStep(text: string, uni: Unicode, pos: nat, st: LexState): (r: Option<(nat, LexState)>)
    requires pos < |text|
    ensures r.Some? ==> pos < r.value.0 <= |text| && |st.toks| <= |r.value.1.toks|
  {
    var (kind, stop) := TokenAt(text, pos, uni);
    var value := text[pos..stop];
    var pushed := match kind
      case Str => Some(Pushed(st, StrTok, Unescape(value[1..|value| - 1])))
      case Name => Some(Pushed(st, NameTok, value))
      case Number => Some(Pushed(st, NumTok, value))
      case Op => Some(Pushed(st, OpTok, value))
      case Punct => PunctStep(st, text[pos])
      case Blank => Some(st)
      case Comment => Some(st);
    if pushed.None? then None else Some((stop, pushed.value.(line := st.line + Newlines(value))))
  }

  /** A `/` opens a regex literal here, not a division. */
  predicate RegexAllowed(toks: seq<Tok>) {
    if toks == [] then true
    else
      var prev := toks[|toks| - 1];
      if prev.kind == NameTok then prev.text in REGEX_AFTER_WORD
      else (prev.kind == PunctTok || prev.kind == OpTok) && prev.text !in {")", "]", "++", "--"}
  }

  /** A regex literal in operand position. */
  function RegexHere(text: string, pos: nat, toks: seq<Tok>): (end: Option<nat>)
    requires pos < |text|
    ensures end.Some? ==> pos + 1 < end.value <= |text|
  {
    if text[pos] == '/' && !StartsAt(text, pos, "//") && RegexAllowed(toks) then RegexEnd(text, pos) else None
  }

  /** What one round of code mode does: fail, leave code mode, or go on from a later position. */
  datatype Move = Fail | Leave(pos: nat, st: LexState) | Go(pos: nat, st: LexState)

  function GoIfSome(r: Option<(nat, LexState)>): Move {
    if r.None? then Fail else Go(r.value.0, r.value.1)
  }

  function CodeStep(text: string, uni: Unicode, pos: nat, st: LexState, inHole: bool, depth: nat): (m: Move)
    requires pos < |text|
    ensures m.Leave? ==> inHole && m.pos == pos + 1 && m.st == st
    ensures m.Go? ==> pos < m.pos <= |text| && |st.toks| <= |m.st.toks|
    decreases |text| + 3 - pos, 0
  {
    if text[pos] == '`' then
      GoIfSome(TemplateSpec(text, uni, pos + 1, Pushed(st, TplTok, ""), |st.toks|, "", 0, st.line))
    else if text[pos] == '}' && inHole && |st.braces| == depth then Leave(pos + 1, st)
    else if StartsAt(text, pos, "/*") then
      var close := FindCommentEnd(text, pos + 2);
      if close.None? then Fail
      else Go(close.value + 2, st.(line := st.line + Newlines(text[pos..close.value])))
    else if RegexHere(text, pos, st.toks).Some? then
      var stop := RegexHere(text, pos, st.toks).value;
      Go(stop, Pushed(st, RegexTok, text[pos..stop]))
    else if (text[pos] == '"' || text[pos] == '\'') && StringEnd(text, pos).None? then Fail
    else GoIfSome(TokenStep(text, uni, pos, st))
  }

  /** Code from `pos` to the end of the text, or in a hole to the `}` at the entry depth. */
  function CodeSpec(text: string, uni: Unicode, pos: nat, st: LexState, inHole: bool, depth: nat)
    : (r: Option<(nat, LexState)>)
    requires pos <= |text| + 1
    ensures r.Some? ==> pos <= r.value.0 && (inHole ==> pos < r.value.0 <= |text|) && |st.toks| <= |r.value.1.toks|
    decreases |text| + 3 - pos, 1
  {
    if pos >= |text| then if inHole then None else Some((pos, st))
    else
      match CodeStep(text, uni, pos, st, inHole, depth)
      case Fail => None
      case Leave(p, after) => Some((p, after))
      case Go(p, after) => CodeSpec(text, uni, p, after, inHole, depth)
  }

  /** The template literal of token `index`, from `pos` on: each hole's tokens are appended, then the token is filled in. */
  function TemplateSpec(text: string, uni: Unicode, pos: nat, st: LexState, index: nat,
                        parts: string, holes: nat, openLine: nat): (r: Option<(nat, LexState)>)
    requires pos <= |text| && index < |st.toks|
    ensures r.Some? ==> pos < r.value.0 <= |text| && |st.toks| <= |r.value.1.toks|
    decreases |text| + 3 - pos, 2
  {
    var stop := TemplateTextEnd(text, pos);
    var more := parts + Unescape(text[pos..stop]);
    var counted := st.(line := st.line + Newlines(text[pos..stop]));
    if stop >= |text| then None
    else if text[stop] == '`' then
      var literal := Tok(TplTok, more, openLine, st.toks[index].block, holes);
      Some((stop + 1, counted.(toks := st.toks[index := literal])))
    else
      var hole := CodeSpec(text, uni, stop + 2, counted, true, |st.braces|);
      if hole.None? then None
      else TemplateSpec(text, uni, hole.value.0, hole.value.1, index, more + HOLE, holes + 1, openLine)
  }

  /** One round of a template literal: its text, then its end or a hole. */
  lemma TemplateRound(text: string, uni: Unicode, pos: nat, st: LexState, index: nat,
                      parts: string, holes: nat, openLine: nat)
    requires pos <= |text| && index < |st.toks|
    ensures var stop := TemplateTextEnd(text, pos);
            var more := parts + Unescape(text[pos..stop]);
            var counted := st.(line := st.line + Newlines(text[pos..stop]));
            TemplateSpec(text, uni, pos, st, index, parts, holes, openLine) ==
            if stop >= |text| then None
            else if text[stop] == '`' then
              Some((stop + 1, counted.(toks := st.toks[index := Tok(TplTok, more, openLine, st.toks[index].block, holes)])))
            else
              var hole := CodeSpec(text, uni, stop + 2, counted, true, |st.braces|);
              if hole.None? then None
              else TemplateSpec(text, uni, hole.value.0, hole.value.1, index, more + HOLE, holes + 1, openLine)
  {
    hide TemplateTextEnd, CodeSpec, Unescape, Newlines;
  }

  /** The tokens of a whole source; None when something never closes. */
  function LexSpec(text: string, uni: Unicode, line: nat): Option<LexState> {
    var end := CodeSpec(text, uni, 0, LexState(line, [], [], map[]), false, 0);
    if end.Some? && end.value.1.braces == [] then Some(end.value.1) else None
  }

  // ---------------------------------------------------------------- what the structure promises

  ghost predicate Ok(st: LexState) {
    Consistent(st.toks, st.braces, st.closes)
  }

  /** `after` keeps everything `before` had, with the same open braces. */
  ghost predicate Balanced(before: LexState, after: LexState) {
    before.toks <= after.toks && after.braces == before.braces
  }

  lemma PushedOk(st: LexState, kind: Kind, value: string)
    requires Ok(st) && kind != PunctTok
    ensures Ok(Pushed(st, kind, value)) && Balanced(st, Pushed(st, kind, value))
    ensures Pushed(st, kind, value).toks[|st.toks|].kind == kind
  {
    AppendPlain(st.toks, st.braces, st.closes, Tok(kind, value, st.line, Top(st.braces), 0));
  }

  lemma PunctOk(st: LexState, c: char)
    requires Ok(st) && PunctStep(st, c).Some?
    ensures Ok(PunctStep(st, c).value) && st.toks <= PunctStep(st, c).value.toks
    ensures c != '}' ==> st.braces <= PunctStep(st, c).value.braces
  {
    hide Consistent;
    if c == '{' {
      AppendOpen(st.toks, st.braces, st.closes, Tok(PunctTok, [c], st.line, Top(st.braces), 0));
    } else if c == '}' {
      var rest := st.braces[..|st.braces| - 1];
      AppendClose(st.toks, st.braces, st.closes, Tok(PunctTok, [c], st.line, Top(rest), 0));
    } else {
      AppendPlain(st.toks, st.braces, st.closes, Tok(PunctTok, [c], st.line, Top(st.braces), 0));
    }
  }

  lemma TokenOk(text: string, uni: Unicode, pos: nat, st: LexState)
    requires Ok(st) && pos < |text| && TokenStep(text, uni, pos, st).Some?
    ensures var after := TokenStep(text, uni, pos, st).value.1; Ok(after) && st.toks <= after.toks
    ensures var after := TokenStep(text, uni, pos, st).value.1;
            st.braces <= after.braces || (text[pos] == '}' && after.braces == st.braces[..|st.braces| - 1])
  {
    hide Consistent, TokenAt, Unescape, Newlines, Pushed;
    var (kind, stop) := TokenAt(text, pos, uni);
    var value := text[pos..stop];
    match kind {
      case Str => PushedOk(st, StrTok, Unescape(value[1..|value| - 1]));
      case Name => PushedOk(st, NameTok, value);
      case Number => PushedOk(st, NumTok, value);
      case Op => PushedOk(st, OpTok, value);
      case Punct =>
        PunctOk(st, text[pos]);
        PunctPop(st, text[pos]);
      case Blank =>
      case Comment =>
    }
  }

  lemma PunctPop(st: LexState, c: char)
    requires PunctStep(st, c).Some?
    ensures c == '}' ==> st.braces != [] && PunctStep(st, c).value.braces == st.braces[..|st.braces| - 1]
  {}

  /** One round of code mode keeps the structure, and in a hole the braces opened outside it. */
  lemma CodeStepOk(text: string, uni: Unicode, pos: nat, st: LexState, inHole: bool, depth: nat)
    requires pos < |text| && Ok(st) && (inHole ==> depth <= |st.braces|)
    ensures var m := CodeStep(text, uni, pos, st, inHole, depth);
            m.Go? ==> Ok(m.st) && st.toks <= m.st.toks &&
                      (inHole ==> depth <= |m.st.braces| && m.st.braces[..depth] == st.braces[..depth])
    ensures var m := CodeStep(text, uni, pos, st, inHole, depth);
            m.Leave? ==> inHole && m.st == st && |st.braces| == depth
    decreases |text| + 3 - pos, 0
  {
    hide Ok, TokenStep, TemplateSpec, RegexHere, StringEnd, FindCommentEnd, Newlines, Pushed, StartsAt;
    if CodeStep(text, uni, pos, st, inHole, depth).Go? {
      if text[pos] == '`' {
        PushedOk(st, TplTok, "");
        TemplateOk(text, uni, pos + 1, st, Pushed(st, TplTok, ""), "", 0, st.line);
      } else if StartsAt(text, pos, "/*") {
        LineOnly(st, st.line + Newlines(text[pos..FindCommentEnd(text, pos + 2).value]));
      } else if RegexHere(text, pos, st.toks).Some? {
        PushedOk(st, RegexTok, text[pos..RegexHere(text, pos, st.toks).value]);
      } else {
        TokenOk(text, uni, pos, st);
        if inHole { PrefixKept(st.braces, TokenStep(text, uni, pos, st).value.1.braces, depth); }
      }
    }
  }

  lemma LineOnly(st: LexState, line: nat)
    requires Ok(st)
    ensures Ok(st.(line := line))
  {}

  /** Code keeps the structure; a hole returns with the brace stack it was entered with. */
  lemma CodeOk(text: string, uni: Unicode, pos: nat, st: LexState, inHole: bool, depth: nat)
    requires pos <= |text| + 1 && Ok(st) && (inHole ==> depth <= |st.braces|)
    requires CodeSpec(text, uni, pos, st, inHole, depth).Some?
    ensures var after := CodeSpec(text, uni, pos, st, inHole, depth).value.1;
            Ok(after) && st.toks <= after.toks && (inHole ==> after.braces == st.braces[..depth])
    decreases |text| + 3 - pos, 1
  {
    hide Ok, CodeStep;
    if pos < |text| {
      CodeStepOk(text, uni, pos, st, inHole, depth);
      var m := CodeStep(text, uni, pos, st, inHole, depth);
      if m.Go? { CodeOk(text, uni, m.pos, m.st, inHole, depth); }
      NoneLeft(st.braces);
    }
  }

  lemma PrefixKept(before: seq<nat>, after: seq<nat>, depth: nat)
    requires depth <= |before|
    requires before <= after || (depth < |before| && after == before[..|before| - 1])
    ensures depth <= |after| && after[..depth] == before[..depth]
  {}

  /** A template literal keeps the structure and the brace stack, whatever its holes contain. */
  lemma TemplateOk(text: string, uni: Unicode, pos: nat, before: LexState, st: LexState,
                   parts: string, holes: nat, openLine: nat)
    requires pos <= |text| && Ok(st) && Balanced(before, st)
    requires |before.toks| < |st.toks| && st.toks[|before.toks|].kind == TplTok
    requires TemplateSpec(text, uni, pos, st, |before.toks|, parts, holes, openLine).Some?
    ensures var after := TemplateSpec(text, uni, pos, st, |before.toks|, parts, holes, openLine).value.1;
            Ok(after) && Balanced(before, after)
    decreases |text| + 3 - pos, 2
  {
    hide Consistent, TemplateTextEnd, CodeSpec, Unescape, Newlines;
    var index := |before.toks|;
    var stop := TemplateTextEnd(text, pos);
    var more := parts + Unescape(text[pos..stop]);
    var counted := st.(line := st.line + Newlines(text[pos..stop]));
    if text[stop] == '`' {
      var literal := Tok(TplTok, more, openLine, st.toks[index].block, holes);
      ReplacePlain(st.toks, st.braces, st.closes, index, literal);
    } else {
      var hole := CodeSpec(text, uni, stop + 2, counted, true, |st.braces|);
      CodeOk(text, uni, stop + 2, counted, true, |st.braces|);
      NoneLeft(st.braces);
      assert hole.value.1.toks[index] == st.toks[index];
      TemplateOk(text, uni, hole.value.0, before, hole.value.1, more + HOLE, holes + 1, openLine);
    }
  }

  /** When lexing succeeds, braces are paired one to one, nested or disjoint, and every block is the innermost. */
  lemma LexIsWellBracketed(text: string, uni: Unicode, line: nat)
    ensures var r := LexSpec(text, uni, line); r.Some? ==> WellBracketed(r.value.toks, r.value.closes)
  {
    hide Consistent, CodeSpec, WellBracketed;
    var start := LexState(line, [], [], map[]);
    EmptyConsistent();
    if LexSpec(text, uni, line).Some? {
      var end := CodeSpec(text, uni, 0, start, false, 0).value.1;
      CodeOk(text, uni, 0, start, false, 0);
      Finished(end.toks, end.closes);
    }
  }

  // ---------------------------------------------------------------- the lexer

  class Lexer {
    const text: string
    const uni: Unicode
    var line: nat
    var toks: seq<Tok>
    var braces: seq<nat>
    var closes: map<nat, nat>

    constructor (text: string, uni: Unicode, line: nat)
      ensures this.text == text && this.uni == uni
      ensures Snapshot() == LexState(line, [], [], map[])
    {
      this.text, this.uni, this.line := text, uni, line;
      toks, braces, closes := [], [], map[];
    }

    function Snapshot(): LexState
      reads this
    {
      LexState(line, toks, braces, closes)
    }

    /** The whole source; a raised NotConfirmed is `false`. */
    method Lex() returns (ok: bool)
      requires toks == [] && braces == [] && closes == map[]
      modifies this
      ensures ok <==> LexSpec(text, uni, old(line)).Some?
      ensures ok ==> LexSpec(text, uni, old(line)) == Some(Snapshot())
      ensures ok ==> WellBracketed(toks, closes)
    {
      LexIsWellBracketed(text, uni, line);
      var end := Code(0, false);
      ok := end.Some? && braces == [];
    }

    method Code(start: nat, inHole: bool) returns (end: Option<nat>)
      requires start <= |text| + 1
      modifies this
      ensures var spec := CodeSpec(text, uni, start, old(Snapshot()), inHole, old(|braces|));
              if spec.None? then end.None? else end == Some(spec.value.0) && Snapshot() == spec.value.1
      decreases |text| + 3 - start, 1
    {
      var pos, depth := start, |braces|;
      ghost var spec := CodeSpec(text, uni, start, Snapshot(), inHole, depth);
      while pos < |text|
        invariant start <= pos <= |text| + 1
        invariant CodeSpec(text, uni, pos, Snapshot(), inHole, depth) == spec
        decreases |text| - pos
      {
        hide CodeStep;
        var next, leave := Round(pos, inHole, depth);
        if next.None? || leave { return next; }
        pos := next.value;
      }
      return if inHole then None else Some(pos);
    }

    /** One round of code mode: the next position, and whether it leaves the hole. */
    method Round(pos: nat, inHole: bool, depth: nat) returns (next: Option<nat>, leave: bool)
      requires pos < |text|
      modifies this
      ensures match CodeStep(text, uni, pos, old(Snapshot()), inHole, depth)
              case Fail => next.None?
              case Leave(p, st) => next == Some(p) && leave && Snapshot() == st
              case Go(p, st) => next == Some(p) && !leave && Snapshot() == st
      decreases |text| + 3 - pos, 0
    {
      hide StringEnd, FindCommentEnd, RegexHere, TokenStep, TemplateSpec, StartsAt, Newlines, Pushed;
      var c := text[pos];
      if c == '`' {
        next := Template(pos + 1);
        return next, false;
      }
      if c == '}' && inHole && |braces| == depth { return Some(pos + 1), true; }
      if StartsAt(text, pos, "/*") {
        var close := FindCommentEnd(text, pos + 2);
        if close.None? { return None, false; }
        line := line + Newlines(text[pos..close.value]);
        return Some(close.value + 2), false;
      }
      var regex := RegexHere(text, pos, toks);
      if regex.Some? {
        Push(RegexTok, text[pos..regex.value]);
        return regex, false;
      }
      if (c == '"' || c == '\'') && StringEnd(text, pos).None? { return None, false; }
      next := Token(pos);
      return next, false;
    }

    method Token(pos: nat) returns (end: Option<nat>)
      requires pos < |text|
      modifies this
      ensures var spec := TokenStep(text, uni, pos, old(Snapshot()));
              if spec.None? then end.None? else end == Some(spec.value.0) && Snapshot() == spec.value.1
    {
      var (kind, stop) := TokenAt(text, pos, uni);
      var value := text[pos..stop];
      match kind {
        case Str => Push(StrTok, Unescape(value[1..|value| - 1]));
        case Name => Push(NameTok, value);
        case Number => Push(NumTok, value);
        case Op => Push(OpTok, value);
        case Punct =>
          var ok := PushPunct(text[pos]);
          if !ok { return None; }
        case Blank =>
        case Comment =>
      }
      line := line + Newlines(value);
      return Some(stop);
    }

    method PushPunct(c: char) returns (ok: bool)
      modifies this`toks, this`braces, this`closes
      ensures ok <==> PunctStep(old(Snapshot()), c).Some?
      ensures ok ==> PunctStep(old(Snapshot()), c) == Some(Snapshot())
    {
      if c == '{' {
        Push(PunctTok, [c]);
        braces := braces + [|toks| - 1];
        return true;
      }
      if c == '}' {
        if braces == [] { return false; }
        closes := closes[braces[|braces| - 1] := |toks|];
        braces := braces[..|braces| - 1];
      }
      Push(PunctTok, [c]);
      return true;
    }

    method Template(start: nat) returns (end: Option<nat>)
      requires start <= |text|
      modifies this
      ensures var spec := TemplateSpec(text, uni, start, Pushed(old(Snapshot()), TplTok, ""), |old(toks)|, "", 0, old(line));
              if spec.None? then end.None? else end == Some(spec.value.0) && Snapshot() == spec.value.1
      decreases |text| + 3 - start, 2
    {
      hide TemplateTextEnd, CodeSpec, Unescape, Newlines, TemplateSpec;
      var index, openLine := |toks|, line;
      Push(TplTok, "");
      var parts, holes, pos := "", 0, start;
      ghost var spec := TemplateSpec(text, uni, start, Snapshot(), index, "", 0, openLine);
      while true
        invariant start <= pos <= |text| && index < |toks|
        invariant TemplateSpec(text, uni, pos, Snapshot(), index, parts, holes, openLine) == spec
        decreases |text| - pos
      {
        TemplateRound(text, uni, pos, Snapshot(), index, parts, holes, openLine);
        var stop := TemplateTextEnd(text, pos);
        parts := parts + Unescape(text[pos..stop]);
        line := line + Newlines(text[pos..stop]);
        pos := stop;
        if pos >= |text| { return None; }
        if text[pos] == '`' { break; }
        holes := holes + 1;
        parts := parts + HOLE;
        var after := Code(pos + 2, true);
        if after.None? { return None; }
        pos := after.value;
      }
      toks := toks[index := Tok(TplTok, parts, openLine, toks[index].block, holes)];
      return Some(pos + 1);
    }

    method Push(kind: Kind, value: string)
      modifies this`toks
      ensures Snapshot() == Pushed(old(Snapshot()), kind, value)
    {
      toks := toks + [Tok(kind, value, line, Top(braces), 0)];
    }
  }
}
