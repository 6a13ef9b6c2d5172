/**
 What the JavaScript lexer makes of every stretch of its text (scripts/usage_track_scan.py):
 a successful lex cuts the whole text into white space, comments, tokens and the pieces of
 template literals, each as the grammar has it; a failed one ends at something that never closes.
 */
module JsCoverage {
  import opened Options
  import opened Seqs
  import opened Brackets
  import opened JsLexer
  import JsPlaces

  // ---------------------------------------------------------------- the grammar of the lexemes

  /** Between the quotes: escaped characters, and any but the quote, a backslash or a newline. */
  predicate StringInner(text: string, pos: nat, end: nat, quote: char)
    requires pos <= end <= |text|
    decreases end - pos
  {
    || pos == end
    || (text[pos] == '\\' && pos + 2 <= end && StringInner(text, pos + 2, end, quote))
    || (text[pos] != '\\' && text[pos] != quote && text[pos] != '\n' && StringInner(text, pos + 1, end, quote))
  }

  /** Between the brackets of a regex class. */
  predicate ClassInner(text: string, pos: nat, end: nat)
    requires pos <= end <= |text|
    decreases end - pos
  {
    || pos == end
    || (text[pos] == '\\' && pos + 2 <= end && text[pos + 1] != '\n' && ClassInner(text, pos + 2, end))
    || (text[pos] !in "\\]\n" && ClassInner(text, pos + 1, end))
  }

  /** Between the slashes of a regex literal. */
  predicate RegexInner(text: string, pos: nat, end: nat)
    requires pos <= end <= |text|
    decreases end - pos
  {
    || pos == end
    || (text[pos] == '\\' && pos + 2 <= end && text[pos + 1] != '\n' && RegexInner(text, pos + 2, end))
    || (text[pos] == '[' && exists m :: pos < m < end && ClassInner(text, pos + 1, m) && text[m] == ']' &&
                                        RegexInner(text, m + 1, end))
    || (text[pos] !in "\\[/\n" && RegexInner(text, pos + 1, end))
  }

  /** A string literal from `pos` to `end`, quotes included. */
  predicate IsString(text: string, pos: nat, end: nat) {
    && pos + 2 <= end <= |text| && (text[pos] == '"' || text[pos] == '\'') && text[end - 1] == text[pos]
    && StringInner(text, pos + 1, end - 1, text[pos])
  }

  /** The slash that ends a regex literal which starts at `pos`. */
  predicate EndsRegex(text: string, pos: nat, slash: nat) {
    && pos + 1 < slash < |text| && text[pos] == '/' && text[pos + 1] !in "*/" && text[slash] == '/'
    && RegexInner(text, pos + 1, slash)
  }

  ghost predicate IsRegex(text: string, pos: nat, end: nat) {
    exists slash: nat :: EndsRegex(text, pos, slash) && Maximal(text, slash + 1, end, c => 'a' <= c <= 'z' || 'A' <= c <= 'Z')
  }

  /** Template text: escaped characters, and any that start neither a hole nor the closing backtick. */
  predicate StretchInner(text: string, pos: nat, end: nat)
    requires pos <= end <= |text|
    decreases end - pos
  {
    || pos == end
    || (text[pos] == '\\' && pos + 2 <= end && StretchInner(text, pos + 2, end))
    || (text[pos] !in "\\`" && !StartsAt(text, pos, "${") && StretchInner(text, pos + 1, end))
  }

  /** What template text stops at: its end, a hole, the end of the text, or a backslash with nothing after it. */
  predicate EndsStretch(text: string, pos: nat) {
    || pos == |text| || (pos < |text| && text[pos] == '`') || StartsAt(text, pos, "${")
    || (pos + 1 == |text| && text[pos] == '\\')
  }

  /** The longest run of a class from `pos`. */
  predicate Maximal(text: string, pos: nat, end: nat, inClass: char -> bool) {
    && pos <= end <= |text| && (forall i :: pos <= i < end ==> inClass(text[i]))
    && (end < |text| ==> !inClass(text[end]))
  }

  predicate StartsName(c: char) { 'a' <= c <= 'z' || 'A' <= c <= 'Z' || c == '_' || c == '$' || '\U{80}' <= c <= '\U{FFFF}' }

  predicate StartsNumber(text: string, pos: nat, uni: Unicode) {
    pos < |text| && (uni.digit(text[pos]) || (text[pos] == '.' && pos + 1 < |text| && uni.digit(text[pos + 1])))
  }

  /** After this token a slash starts a regex, not a division. */
  predicate OperandPlace(prev: Option<Tok>) {
    prev.None? ||
    match prev.value.kind
    case NameTok => prev.value.text in REGEX_AFTER_WORD
    case PunctTok => prev.value.text !in {")", "]", "++", "--"}
    case OpTok => prev.value.text !in {")", "]", "++", "--"}
    case _ => false
  }

  /** What may stand first in an operator or a single character of punctuation. */
  ghost predicate PlainFirst(text: string, pos: nat, uni: Unicode, prev: Option<Tok>) {
    && pos < |text| && !uni.space(text[pos]) && text[pos] !in "\n\"'`"
    && !StartsName(text[pos]) && !StartsNumber(text, pos, uni)
    && !StartsAt(text, pos, "//") && !StartsAt(text, pos, "/*")
    && (OperandPlace(prev) ==> forall slash: nat :: !EndsRegex(text, pos, slash))
  }

  /** The text from `pos` to `end` is read as the token `t`, after the token `prev`. */
  ghost predicate ReadAs(text: string, uni: Unicode, pos: nat, end: nat, prev: Option<Tok>, t: Tok) {
    && pos < end <= |text|
    && (t.kind != StrTok ==> t.text == text[pos..end])
    && match t.kind
       case StrTok => !uni.space(text[pos]) && IsString(text, pos, end) && t.text == Unescape(text[pos + 1..end - 1])
       case RegexTok => IsRegex(text, pos, end) && OperandPlace(prev)
       case NameTok =>
         && !uni.space(text[pos]) && StartsName(text[pos])
         && Maximal(text, pos + 1, end, c => uni.word(c) || c == '$' || '\U{80}' <= c <= '\U{FFFF}')
       case NumTok =>
         && !uni.space(text[pos]) && !StartsName(text[pos]) && StartsNumber(text, pos, uni)
         && Maximal(text, if uni.digit(text[pos]) then pos + 1 else pos + 2, end, c => uni.word(c) || c == '.')
       case OpTok =>
         && PlainFirst(text, pos, uni, prev) && t.text in OPS
         && forall op :: op in OPS && StartsAt(text, pos, op) ==> |op| <= |t.text|
       case PunctTok =>
         && PlainFirst(text, pos, uni, prev) && end == pos + 1 && forall op :: op in OPS ==> !StartsAt(text, pos, op)
       case TplTok => false
  }

  // ---------------------------------------------------------------- the recognisers find what the grammar has

  lemma {:induction false} StringBodyExactly(text: string, pos: nat, quote: char, m: nat)
    requires pos <= |text| && quote != '\\' && quote != '\n'
    ensures var e := StringBody(text, pos, quote);
            e.Some? ==> text[e.value - 1] == quote && StringInner(text, pos, e.value - 1, quote)
    ensures pos <= m < |text| && text[m] == quote && StringInner(text, pos, m, quote) ==>
              StringBody(text, pos, quote) == Some(m + 1)
    decreases |text| - pos
  {
    if pos < |text| && text[pos] != '\n' && text[pos] != quote {
      if text[pos] != '\\' {
        StringBodyExactly(text, pos + 1, quote, m);
      } else if pos + 2 <= |text| {
        StringBodyExactly(text, pos + 2, quote, m);
      }
    }
  }

  lemma StringExactly(text: string, pos: nat)
    requires pos < |text|
    ensures StringEnd(text, pos).Some? ==> IsString(text, pos, StringEnd(text, pos).value)
    ensures forall end: nat :: IsString(text, pos, end) ==> StringEnd(text, pos) == Some(end)
  {
    hide StringBody, StringInner;
    if text[pos] == '"' || text[pos] == '\'' {
      StringBodyExactly(text, pos + 1, text[pos], 0);
      forall end: nat | IsString(text, pos, end) ensures StringEnd(text, pos) == Some(end) {
        StringBodyExactly(text, pos + 1, text[pos], end - 1);
      }
    }
  }

  lemma {:induction false} ClassExactly(text: string, pos: nat, m: nat)
    requires pos <= |text|
    ensures var e := ClassBody(text, pos); e.Some? ==> text[e.value - 1] == ']' && ClassInner(text, pos, e.value - 1)
    ensures pos <= m < |text| && text[m] == ']' && ClassInner(text, pos, m) ==> ClassBody(text, pos) == Some(m + 1)
    decreases |text| - pos
  {
    if pos < |text| && text[pos] != '\n' && text[pos] != ']' {
      if text[pos] != '\\' {
        ClassExactly(text, pos + 1, m);
      } else if pos + 2 <= |text| {
        ClassExactly(text, pos + 2, m);
      }
    }
  }

  lemma {:induction false} RegexBodyExactly(text: string, pos: nat, m: nat)
    requires pos <= |text|
    ensures var e := RegexBody(text, pos); e.Some? ==> text[e.value] == '/' && RegexInner(text, pos, e.value)
    ensures pos <= m < |text| && text[m] == '/' && RegexInner(text, pos, m) ==> RegexBody(text, pos) == Some(m)
    decreases |text| - pos
  {
    hide ClassBody, ClassInner;
    if pos < |text| && text[pos] != '\n' && text[pos] != '/' {
      if text[pos] == '[' {
        ClassExactly(text, pos + 1, 0);
        if ClassBody(text, pos + 1).Some? { RegexBodyExactly(text, ClassBody(text, pos + 1).value, m); }
        if pos <= m < |text| && RegexInner(text, pos, m) && pos != m {
          var k :| pos < k < m && ClassInner(text, pos + 1, k) && text[k] == ']' && RegexInner(text, k + 1, m);
          ClassExactly(text, pos + 1, k);
        }
      } else if text[pos] != '\\' {
        RegexBodyExactly(text, pos + 1, m);
      } else if pos + 2 <= |text| {
        RegexBodyExactly(text, pos + 2, m);
      }
    }
  }

  lemma {:induction false} RunIsMaximal(text: string, pos: nat, inClass: char -> bool)
    requires pos <= |text|
    ensures Maximal(text, pos, RunEnd(text, pos, inClass), inClass)
    decreases |text| - pos
  {
    if pos < |text| && inClass(text[pos]) { RunIsMaximal(text, pos + 1, inClass); }
  }

  lemma RegexExactly(text: string, pos: nat)
    requires pos < |text| && text[pos] == '/'
    ensures RegexEnd(text, pos).Some? ==> IsRegex(text, pos, RegexEnd(text, pos).value)
    ensures RegexEnd(text, pos).None? ==> forall slash: nat :: !EndsRegex(text, pos, slash)
  {
    hide RegexBody, RegexInner, RunEnd;
    if pos + 1 < |text| {
      RegexBodyExactly(text, pos + 1, 0);
      var e := RegexBody(text, pos + 1);
      if RegexEnd(text, pos).Some? {
        RunIsMaximal(text, e.value + 1, AsciiLetter);
        SameMaximal(text, e.value + 1, RegexEnd(text, pos).value, AsciiLetter, c => 'a' <= c <= 'z' || 'A' <= c <= 'Z');
        assert EndsRegex(text, pos, e.value) by { BodyNotEmpty(text, pos + 1); }
      }
      forall slash: nat | EndsRegex(text, pos, slash) ensures RegexEnd(text, pos).Some? {
        RegexBodyExactly(text, pos + 1, slash);
      }
    }
  }

  lemma BodyNotEmpty(text: string, pos: nat)
    requires pos < |text| && text[pos] != '/' && RegexBody(text, pos).Some?
    ensures RegexBody(text, pos).value > pos
  {}

  lemma SameMaximal(text: string, pos: nat, end: nat, p: char -> bool, q: char -> bool)
    requires Maximal(text, pos, end, p) && forall c :: p(c) == q(c)
    ensures Maximal(text, pos, end, q)
  {}

  function First(op: string): char {
    if op == "" then ' ' else op[0]
  }

  /** No operator comes before a longer one that starts alike. */
  ghost predicate LongestFirst(ops: seq<string>) {
    && (forall i :: 0 <= i < |ops| ==> ops[i] != "")
    && (forall i, j :: 0 <= i < j < |ops| && |ops[i]| < |ops[j]| ==> First(ops[i]) != First(ops[j]))
  }

  lemma LaterNoLonger(text: string, pos: nat, ops: seq<string>, op: string)
    requires LongestFirst(ops) && ops != [] && op in ops && StartsAt(text, pos, ops[0]) && StartsAt(text, pos, op)
    ensures |op| <= |ops[0]|
  {
    var j :| 0 <= j < |ops| && ops[j] == op;
    assert First(op) == text[pos..pos + |op|][0] == text[pos] == text[pos..pos + |ops[0]|][0] == First(ops[0]);
  }

  lemma RestLongestFirst(ops: seq<string>)
    requires LongestFirst(ops) && ops != []
    ensures LongestFirst(ops[1..])
  {}

  lemma {:induction false} OpAtFirst(text: string, pos: nat, ops: seq<string>, op: string)
    requires LongestFirst(ops) && op in ops && StartsAt(text, pos, op)
    ensures |op| <= |OpAt(text, pos, ops)|
  {
    hide LongestFirst, StartsAt;
    if StartsAt(text, pos, ops[0]) {
      LaterNoLonger(text, pos, ops, op);
    } else {
      RestLongestFirst(ops);
      HeadTail(ops);
      OpAtFirst(text, pos, ops[1..], op);
    }
  }

  lemma OpsLengths()
    ensures |OPS| == 20 && forall i :: 0 <= i < 20 ==> |OPS[i]| == if i <= 1 || 7 <= i <= 9 || i == 19 then 3 else 2
  {}

  lemma OpsFirsts()
    ensures |OPS| == 20 && forall i :: 0 <= i < 7 ==> First(OPS[i]) in "=!<>"
    ensures First(OPS[7]) == '&' && First(OPS[8]) == '|' && First(OPS[9]) == '?' && First(OPS[19]) == '.'
  {}

  lemma OpsNoDot()
    ensures |OPS| == 20 && forall i :: 0 <= i < 19 ==> First(OPS[i]) != '.'
  {}

  lemma OpsInOrder()
    ensures LongestFirst(OPS)
  {
    hide OPS, First;
    OpsLengths();
    OpsFirsts();
    OpsNoDot();
  }

  lemma OpsLongest(text: string, pos: nat)
    ensures forall op :: op in OPS && StartsAt(text, pos, op) ==> op != "" && |op| <= |OpAt(text, pos, OPS)|
  {
    OpsInOrder();
    hide OPS, StartsAt;
    forall op | op in OPS && StartsAt(text, pos, op) ensures op != "" && |op| <= |OpAt(text, pos, OPS)| {
      OpAtFirst(text, pos, OPS, op);
    }
  }

  // ---------------------------------------------------------------- one token

  function Before(toks: seq<Tok>, k: nat): Option<Tok>
    requires k <= |toks|
  {
    if k == 0 then None else Some(toks[k - 1])
  }

  lemma OperandPlaceIs(toks: seq<Tok>)
    ensures RegexAllowed(toks) <==> OperandPlace(Before(toks, |toks|))
  {}

  lemma RegexRead(text: string, uni: Unicode, pos: nat, toks: seq<Tok>, t: Tok)
    requires pos < |text| && RegexHere(text, pos, toks).Some?
    requires t.kind == RegexTok && t.text == text[pos..RegexHere(text, pos, toks).value]
    ensures ReadAs(text, uni, pos, RegexHere(text, pos, toks).value, Before(toks, |toks|), t)
  {
    hide RegexEnd, RegexAllowed, OperandPlace, EndsRegex;
    OperandPlaceIs(toks);
    RegexExactly(text, pos);
  }

  /** The token alternatives are tried where no template, comment or regex literal starts, and no string is left open. */
  predicate TokenPlace(text: string, pos: nat, toks: seq<Tok>)
    requires pos < |text|
  {
    && text[pos] != '`' && !StartsAt(text, pos, "/*") && RegexHere(text, pos, toks).None?
    && (text[pos] == '"' || text[pos] == '\'' ==> StringEnd(text, pos).Some?)
  }

  lemma NoRegexThere(text: string, pos: nat, toks: seq<Tok>)
    requires pos < |text| && RegexHere(text, pos, toks).None? && OperandPlace(Before(toks, |toks|))
    ensures forall slash: nat :: !EndsRegex(text, pos, slash)
  {
    hide RegexEnd, RegexAllowed, OperandPlace, RegexInner;
    OperandPlaceIs(toks);
    if text[pos] == '/' {
      RegexExactly(text, pos);
      if StartsAt(text, pos, "//") { assert text[pos + 1] == text[pos..pos + 2][1] == '/'; }
    }
  }

  function KindOf(kind: Lexeme): Option<Kind> {
    match kind
    case Str => Some(StrTok)
    case Name => Some(NameTok)
    case Number => Some(NumTok)
    case Op => Some(OpTok)
    case Punct => Some(PunctTok)
    case Blank => None
    case Comment => None
  }

  /** The token that is pushed for a lexeme. */
  predicate Carries(text: string, pos: nat, stop: nat, kind: Lexeme, t: Tok)
    requires pos < stop <= |text| && (kind == Str ==> pos + 2 <= stop)
  {
    KindOf(kind) == Some(t.kind) && t.text == if kind == Str then Unescape(text[pos + 1..stop - 1]) else text[pos..stop]
  }

  lemma BlankRead(text: string, uni: Unicode, pos: nat)
    requires pos < |text| && TokenAt(text, pos, uni).0 == Blank
    ensures forall i :: pos <= i < TokenAt(text, pos, uni).1 ==> uni.space(text[i]) || text[i] == '\n'
  {
    RunIsMaximal(text, pos + 1, (d: char) => d != '\n' && uni.space(d));
  }

  lemma CommentRead(text: string, uni: Unicode, pos: nat)
    requires pos < |text| && TokenAt(text, pos, uni).0 == Comment
    ensures StartsAt(text, pos, "//") && Maximal(text, pos + 2, TokenAt(text, pos, uni).1, (d: char) => d != '\n')
  {
    RunIsMaximal(text, pos + 2, (d: char) => d != '\n');
  }

  lemma NameRead(text: string, uni: Unicode, pos: nat)
    requires pos < |text| && TokenAt(text, pos, uni).0 == Name
    ensures !uni.space(text[pos]) && StartsName(text[pos])
    ensures Maximal(text, pos + 1, TokenAt(text, pos, uni).1, c => uni.word(c) || c == '$' || '\U{80}' <= c <= '\U{FFFF}')
  {
    var inName := (d: char) => uni.word(d) || d == '$' || HighName(d);
    RunIsMaximal(text, pos + 1, inName);
    var plain := c => uni.word(c) || c == '$' || '\U{80}' <= c <= '\U{FFFF}';
    assert Maximal(text, pos + 1, TokenAt(text, pos, uni).1, inName);
    forall i: nat | i < |text| ensures inName(text[i]) == plain(text[i]) { assert HighName(text[i]) == ('\U{80}' <= text[i] <= '\U{FFFF}'); }
  }

  lemma NumberRead(text: string, uni: Unicode, pos: nat)
    requires pos < |text| && TokenAt(text, pos, uni).0 == Number
    ensures !uni.space(text[pos]) && !StartsName(text[pos]) && StartsNumber(text, pos, uni)
    ensures Maximal(text, if uni.digit(text[pos]) then pos + 1 else pos + 2, TokenAt(text, pos, uni).1,
                    c => uni.word(c) || c == '.')
  {
    var from := if uni.digit(text[pos]) then pos + 1 else pos + 2;
    RunIsMaximal(text, from, (d: char) => uni.word(d) || d == '.');
  }

  lemma OtherFirst(text: string, uni: Unicode, pos: nat, toks: seq<Tok>)
    requires pos < |text| && TokenPlace(text, pos, toks)
    requires TokenAt(text, pos, uni).0 == Op || TokenAt(text, pos, uni).0 == Punct
    ensures PlainFirst(text, pos, uni, Before(toks, |toks|))
  {
    hide RegexHere, StringEnd, RunEnd, OpAt, OperandPlace, EndsRegex;
    if OperandPlace(Before(toks, |toks|)) { NoRegexThere(text, pos, toks); }
  }

  lemma OpRead(text: string, uni: Unicode, pos: nat)
    requires pos < |text| && (TokenAt(text, pos, uni).0 == Op || TokenAt(text, pos, uni).0 == Punct)
    ensures var (kind, stop) := TokenAt(text, pos, uni);
            if kind == Op then
              text[pos..stop] in OPS && forall op :: op in OPS && StartsAt(text, pos, op) ==> |op| <= stop - pos
            else stop == pos + 1 && forall op :: op in OPS ==> !StartsAt(text, pos, op)
  {
    hide StringEnd, RunEnd, OPS;
    OpsLongest(text, pos);
  }

  lemma StringRead(text: string, uni: Unicode, pos: nat)
    requires pos < |text| && TokenAt(text, pos, uni).0 == Str
    ensures !uni.space(text[pos]) && IsString(text, pos, TokenAt(text, pos, uni).1)
  {
    hide StringBody, StringInner, RunEnd, OpAt;
    StringExactly(text, pos);
  }

  lemma TokenRead(text: string, uni: Unicode, pos: nat, toks: seq<Tok>, t: Tok)
    requires pos < |text| && TokenPlace(text, pos, toks)
    requires Carries(text, pos, TokenAt(text, pos, uni).1, TokenAt(text, pos, uni).0, t)
    ensures ReadAs(text, uni, pos, TokenAt(text, pos, uni).1, Before(toks, |toks|), t)
  {
    hide TokenAt, TokenPlace, Unescape, StartsName, StartsNumber, IsString, PlainFirst, OPS;
    match TokenAt(text, pos, uni).0 {
      case Str => StringRead(text, uni, pos);
      case Name => NameRead(text, uni, pos);
      case Number => NumberRead(text, uni, pos);
      case Op =>
        OtherFirst(text, uni, pos, toks);
        OpRead(text, uni, pos);
      case Punct =>
        OtherFirst(text, uni, pos, toks);
        OpRead(text, uni, pos);
    }
  }

  // ---------------------------------------------------------------- the whole text

  datatype What = Space | LineComment | BlockComment | Whole(token: nat)
                | Opening(token: nat) | Stretch | HoleOpen | HoleClose | Closing

  /** A stretch of the text and what it is read as. */
  datatype Seg = Seg(from: nat, upTo: nat, what: What)

  ghost predicate SegOk(text: string, uni: Unicode, toks: seq<Tok>, seg: Seg) {
    var (from, upTo) := (seg.from, seg.upTo);
    && from <= upTo <= |text|
    && match seg.what
       case Space => from < upTo && forall i :: from <= i < upTo ==> uni.space(text[i]) || text[i] == '\n'
       case LineComment => StartsAt(text, from, "//") && Maximal(text, from + 2, upTo, c => c != '\n')
       case BlockComment =>
         && from + 4 <= upTo && StartsAt(text, from, "/*") && StartsAt(text, upTo - 2, "*/")
         && forall i: nat :: from + 2 <= i < upTo - 2 ==> !StartsAt(text, i, "*/")
       case Whole(k) => k < |toks| && ReadAs(text, uni, from, upTo, Before(toks, k), toks[k])
       case Opening(k) => k < |toks| && toks[k].kind == TplTok && upTo == from + 1 && text[from] == '`'
       case Stretch => StretchInner(text, from, upTo) && EndsStretch(text, upTo)
       case HoleOpen => upTo == from + 2 && StartsAt(text, from, "${")
       case HoleClose => upTo == from + 1 && text[from] == '}'
       case Closing => upTo == from + 1 && text[from] == '`'
  }

  /** The tokens met, in order. */
  function Numbers(segs: seq<Seg>): seq<nat> {
    if segs == [] then []
    else
      var what := segs[|segs| - 1].what;
      Numbers(segs[..|segs| - 1]) + if what.Whole? || what.Opening? then [what.token] else []
  }

  /** How many template literals are open at the end. */
  function OpenTemplates(segs: seq<Seg>): int {
    if segs == [] then 0
    else
      var what := segs[|segs| - 1].what;
      OpenTemplates(segs[..|segs| - 1]) + if what.Opening? then 1 else if what.Closing? then -1 else 0
  }

  /** Each segment starts where the one before it ends. */
  predicate Chain(segs: seq<Seg>, pos: nat) {
    if segs == [] then pos == 0
    else
      var last := segs[|segs| - 1];
      last.upTo == pos && Chain(segs[..|segs| - 1], last.from)
  }

  /** The text up to `pos` is cut into segments without a gap, and among them is every token once, in order. */
  ghost predicate Covered(text: string, uni: Unicode, toks: seq<Tok>, segs: seq<Seg>, pos: nat) {
    && pos <= |text| && Chain(segs, pos)
    && (forall i :: 0 <= i < |segs| ==> SegOk(text, uni, toks, segs[i]))
    && |Numbers(segs)| == |toks| && (forall i :: 0 <= i < |toks| ==> Numbers(segs)[i] == i)
  }

  lemma SegsAppend(segs: seq<Seg>, seg: Seg)
    ensures Numbers(segs + [seg]) ==
            Numbers(segs) + if seg.what.Whole? || seg.what.Opening? then [seg.what.token] else []
    ensures OpenTemplates(segs + [seg]) ==
            OpenTemplates(segs) + if seg.what.Opening? then 1 else if seg.what.Closing? then -1 else 0
    ensures Chain(segs + [seg], seg.upTo) <==> Chain(segs, seg.from)
  {
    assert (segs + [seg])[..|segs|] == segs;
  }

  /** A segment that is no token. */
  lemma Add(text: string, uni: Unicode, toks: seq<Tok>, segs: seq<Seg>, pos: nat, seg: Seg)
    requires Covered(text, uni, toks, segs, pos) && seg.from == pos && SegOk(text, uni, toks, seg)
    requires !seg.what.Whole? && !seg.what.Opening?
    ensures Covered(text, uni, toks, segs + [seg], seg.upTo)
  {
    SegBounds(text, uni, toks, seg);
    hide SegOk, Numbers, Chain;
    SegsAppend(segs, seg);
  }

  lemma SegBounds(text: string, uni: Unicode, toks: seq<Tok>, seg: Seg)
    requires SegOk(text, uni, toks, seg)
    ensures seg.upTo <= |text|
  {}

  lemma SegGrow(text: string, uni: Unicode, toks: seq<Tok>, t: Tok, seg: Seg)
    requires SegOk(text, uni, toks, seg)
    ensures SegOk(text, uni, toks + [t], seg)
  {
    hide ReadAs, StretchInner, EndsStretch, Maximal;
    if seg.what.Whole? { assert Before(toks + [t], seg.what.token) == Before(toks, seg.what.token); }
  }

  /** A segment that is the next token. */
  lemma AddToken(text: string, uni: Unicode, toks: seq<Tok>, segs: seq<Seg>, pos: nat, t: Tok, seg: Seg)
    requires Covered(text, uni, toks, segs, pos) && seg.from == pos && SegOk(text, uni, toks + [t], seg)
    requires seg.what == Whole(|toks|) || seg.what == Opening(|toks|)
    ensures Covered(text, uni, toks + [t], segs + [seg], seg.upTo)
  {
    SegBounds(text, uni, toks + [t], seg);
    hide SegOk, Numbers, Chain;
    SegsAppend(segs, seg);
    forall i | 0 <= i < |segs| ensures SegOk(text, uni, toks + [t], segs[i]) { SegGrow(text, uni, toks, t, segs[i]); }
  }

  lemma SegRefill(text: string, uni: Unicode, toks: seq<Tok>, index: nat, t: Tok, seg: Seg)
    requires index < |toks| && toks[index].kind == t.kind == TplTok && SegOk(text, uni, toks, seg)
    ensures SegOk(text, uni, toks[index := t], seg)
  {
    hide StretchInner, EndsStretch, Maximal, PlainFirst, IsString, IsRegex;
    if seg.what.Whole? {
      var k := seg.what.token;
      assert k != index;
      AfterTemplate(text, seg.from, uni, Before(toks, k), Before(toks[index := t], k));
    }
  }

  /** Only whether an operand may follow matters of the token before, and after a template none may. */
  lemma AfterTemplate(text: string, pos: nat, uni: Unicode, prev: Option<Tok>, other: Option<Tok>)
    requires prev == other || (prev.Some? && other.Some? && prev.value.kind == other.value.kind == TplTok)
    ensures OperandPlace(prev) == OperandPlace(other)
    ensures PlainFirst(text, pos, uni, prev) == PlainFirst(text, pos, uni, other)
  {}

  lemma Refill(text: string, uni: Unicode, toks: seq<Tok>, segs: seq<Seg>, pos: nat, index: nat, t: Tok)
    requires index < |toks| && toks[index].kind == t.kind == TplTok && Covered(text, uni, toks, segs, pos)
    ensures Covered(text, uni, toks[index := t], segs, pos)
  {
    hide SegOk, Numbers, Chain;
    forall i | 0 <= i < |segs| ensures SegOk(text, uni, toks[index := t], segs[i]) {
      SegRefill(text, uni, toks, index, t, segs[i]);
    }
  }

  // ---------------------------------------------------------------- a successful lex

  lemma {:induction false} CommentEndIsFirst(text: string, pos: nat)
    ensures FindCommentEnd(text, pos).Some? ==>
              StartsAt(text, FindCommentEnd(text, pos).value, "*/") &&
              forall i: nat :: pos <= i < FindCommentEnd(text, pos).value ==> !StartsAt(text, i, "*/")
    ensures FindCommentEnd(text, pos).None? ==> forall i: nat :: pos <= i ==> !StartsAt(text, i, "*/")
    decreases |text| - pos
  {
    hide StartsAt;
    if pos + 2 > |text| {
      forall i: nat | pos <= i ensures !StartsAt(text, i, "*/") { TooShort(text, i); }
    } else if !StartsAt(text, pos, "*/") {
      CommentEndIsFirst(text, pos + 1);
    }
  }

  lemma TooShort(text: string, i: nat)
    requires i + 2 > |text|
    ensures !StartsAt(text, i, "*/")
  {}

  lemma TokenCovered(text: string, uni: Unicode, pos: nat, st: LexState, segs: seq<Seg>) returns (more: seq<Seg>)
    requires pos < |text| && Covered(text, uni, st.toks, segs, pos) && TokenPlace(text, pos, st.toks)
    requires TokenStep(text, uni, pos, st).Some?
    ensures var (stop, after) := TokenStep(text, uni, pos, st).value;
            Covered(text, uni, after.toks, more, stop) && OpenTemplates(more) == OpenTemplates(segs)
  {
    hide TokenAt, TokenPlace, Unescape, Newlines, Covered, ReadAs, OpenTemplates, Maximal, StartsAt;
    var (kind, stop) := TokenAt(text, pos, uni);
    var after := TokenStep(text, uni, pos, st).value.1;
    var seg := Seg(pos, stop, match kind case Blank => Space case Comment => LineComment case _ => Whole(|st.toks|));
    SegsAppend(segs, seg);
    more := segs + [seg];
    if kind == Blank {
      BlankRead(text, uni, pos);
      Add(text, uni, st.toks, segs, pos, seg);
    } else if kind == Comment {
      CommentRead(text, uni, pos);
      Add(text, uni, st.toks, segs, pos, seg);
    } else {
      var t := after.toks[|st.toks|];
      TokenCarries(text, uni, pos, st);
      TokenRead(text, uni, pos, st.toks, t);
      AddToken(text, uni, st.toks, segs, pos, t, seg);
    }
  }

  lemma TokenCarries(text: string, uni: Unicode, pos: nat, st: LexState)
    requires pos < |text| && TokenStep(text, uni, pos, st).Some? && KindOf(TokenAt(text, pos, uni).0).Some?
    ensures var (kind, stop) := TokenAt(text, pos, uni);
            var toks := TokenStep(text, uni, pos, st).value.1.toks;
            |toks| == |st.toks| + 1 && toks == st.toks + [toks[|st.toks|]] && Carries(text, pos, stop, kind, toks[|st.toks|])
  {
    hide TokenAt, Unescape, Newlines;
    var (kind, stop) := TokenAt(text, pos, uni);
    if kind == Str { assert text[pos..stop][1..|text[pos..stop]| - 1] == text[pos + 1..stop - 1]; }
    if kind == Punct { PunctIsOne(text, uni, pos); }
  }

  lemma PunctIsOne(text: string, uni: Unicode, pos: nat)
    requires pos < |text| && TokenAt(text, pos, uni).0 == Punct
    ensures text[pos..TokenAt(text, pos, uni).1] == [text[pos]]
  {}

  lemma OpenCovered(text: string, uni: Unicode, pos: nat, st: LexState, segs: seq<Seg>) returns (more: seq<Seg>)
    requires pos < |text| && text[pos] == '`' && Covered(text, uni, st.toks, segs, pos)
    ensures Covered(text, uni, Pushed(st, TplTok, "").toks, more, pos + 1)
    ensures OpenTemplates(more) == OpenTemplates(segs) + 1
  {
    hide Covered, OpenTemplates;
    var seg := Seg(pos, pos + 1, Opening(|st.toks|));
    more := segs + [seg];
    SegsAppend(segs, seg);
    AddToken(text, uni, st.toks, segs, pos, Pushed(st, TplTok, "").toks[|st.toks|], seg);
  }

  lemma RegexCovered(text: string, uni: Unicode, pos: nat, st: LexState, segs: seq<Seg>) returns (more: seq<Seg>)
    requires pos < |text| && RegexHere(text, pos, st.toks).Some? && Covered(text, uni, st.toks, segs, pos)
    ensures var stop := RegexHere(text, pos, st.toks).value;
            Covered(text, uni, Pushed(st, RegexTok, text[pos..stop]).toks, more, stop) &&
            OpenTemplates(more) == OpenTemplates(segs)
  {
    hide Covered, OpenTemplates, RegexHere, ReadAs;
    var stop := RegexHere(text, pos, st.toks).value;
    var t := Pushed(st, RegexTok, text[pos..stop]).toks[|st.toks|];
    var seg := Seg(pos, stop, Whole(|st.toks|));
    more := segs + [seg];
    SegsAppend(segs, seg);
    RegexRead(text, uni, pos, st.toks, t);
    AddToken(text, uni, st.toks, segs, pos, t, seg);
  }

  lemma CommentCovered(text: string, uni: Unicode, pos: nat, toks: seq<Tok>, segs: seq<Seg>) returns (more: seq<Seg>)
    requires pos < |text| && StartsAt(text, pos, "/*") && FindCommentEnd(text, pos + 2).Some?
    requires Covered(text, uni, toks, segs, pos)
    ensures Covered(text, uni, toks, more, FindCommentEnd(text, pos + 2).value + 2)
    ensures OpenTemplates(more) == OpenTemplates(segs)
  {
    hide Covered, OpenTemplates, StartsAt;
    CommentEndIsFirst(text, pos + 2);
    var seg := Seg(pos, FindCommentEnd(text, pos + 2).value + 2, BlockComment);
    more := segs + [seg];
    SegsAppend(segs, seg);
    Add(text, uni, toks, segs, pos, seg);
  }

  lemma CodeStepCovered(text: string, uni: Unicode, pos: nat, st: LexState, inHole: bool, depth: nat, segs: seq<Seg>)
    returns (more: seq<Seg>)
    requires pos < |text| && Covered(text, uni, st.toks, segs, pos) && Ok(st)
    ensures var m := CodeStep(text, uni, pos, st, inHole, depth);
            !m.Fail? ==> Covered(text, uni, m.st.toks, more, m.pos) && OpenTemplates(more) == OpenTemplates(segs)
    decreases |text| + 3 - pos, 0
  {
    hide TokenStep, TemplateSpec, RegexHere, StringEnd, FindCommentEnd, Newlines, Covered, Ok, Pushed, OpenTemplates;
    more := segs;
    var m := CodeStep(text, uni, pos, st, inHole, depth);
    if m.Leave? {
      var seg := Seg(pos, pos + 1, HoleClose);
      more := segs + [seg];
      SegsAppend(segs, seg);
      Add(text, uni, st.toks, segs, pos, seg);
    } else if m.Go? {
      if text[pos] == '`' {
        more := OpenCovered(text, uni, pos, st, segs);
        PushedOk(st, TplTok, "");
        more := TemplateCovered(text, uni, pos + 1, Pushed(st, TplTok, ""), |st.toks|, "", 0, st.line, more);
      } else if StartsAt(text, pos, "/*") {
        more := CommentCovered(text, uni, pos, st.toks, segs);
      } else if RegexHere(text, pos, st.toks).Some? {
        more := RegexCovered(text, uni, pos, st, segs);
      } else {
        more := TokenCovered(text, uni, pos, st, segs);
      }
    }
  }

  lemma {:induction false} CodeCovered(text: string, uni: Unicode, pos: nat, st: LexState, inHole: bool, depth: nat,
                                       segs: seq<Seg>) returns (more: seq<Seg>)
    requires pos <= |text| && Covered(text, uni, st.toks, segs, pos) && Ok(st) && (inHole ==> depth <= |st.braces|)
    requires CodeSpec(text, uni, pos, st, inHole, depth).Some?
    ensures var (stop, after) := CodeSpec(text, uni, pos, st, inHole, depth).value;
            Covered(text, uni, after.toks, more, stop) && OpenTemplates(more) == OpenTemplates(segs)
    decreases |text| + 3 - pos, 1
  {
    hide Covered, CodeStep, Ok, OpenTemplates;
    more := segs;
    if pos < |text| {
      more := CodeStepCovered(text, uni, pos, st, inHole, depth, segs);
      CodeStepOk(text, uni, pos, st, inHole, depth);
      var m := CodeStep(text, uni, pos, st, inHole, depth);
      if m.Go? { more := CodeCovered(text, uni, m.pos, m.st, inHole, depth, more); }
    }
  }

  lemma {:induction false} StretchRead(text: string, pos: nat)
    requires pos <= |text|
    ensures StretchInner(text, pos, TemplateTextEnd(text, pos)) && EndsStretch(text, TemplateTextEnd(text, pos))
    decreases |text| - pos
  {
    hide StartsAt;
    if pos < |text| && text[pos] != '`' {
      if text[pos] == '\\' {
        if pos + 1 < |text| { StretchRead(text, pos + 2); }
      } else if !StartsAt(text, pos, "${") {
        StretchRead(text, pos + 1);
      }
    }
  }

  lemma StretchCovered(text: string, uni: Unicode, pos: nat, toks: seq<Tok>, segs: seq<Seg>) returns (more: seq<Seg>)
    requires pos <= |text| && Covered(text, uni, toks, segs, pos)
    ensures Covered(text, uni, toks, more, TemplateTextEnd(text, pos)) && OpenTemplates(more) == OpenTemplates(segs)
  {
    hide Covered, OpenTemplates, TemplateTextEnd, StretchInner, EndsStretch;
    StretchRead(text, pos);
    var seg := Seg(pos, TemplateTextEnd(text, pos), Stretch);
    more := segs + [seg];
    SegsAppend(segs, seg);
    Add(text, uni, toks, segs, pos, seg);
  }

  lemma MarkCovered(text: string, uni: Unicode, pos: nat, toks: seq<Tok>, segs: seq<Seg>, what: What)
    returns (more: seq<Seg>)
    requires Covered(text, uni, toks, segs, pos)
    requires (what == HoleOpen && StartsAt(text, pos, "${")) || (what == Closing && pos < |text| && text[pos] == '`')
    ensures Covered(text, uni, toks, more, pos + if what == HoleOpen then 2 else 1)
    ensures OpenTemplates(more) == OpenTemplates(segs) - if what == Closing then 1 else 0
  {
    hide Covered, OpenTemplates;
    var seg := Seg(pos, pos + if what == HoleOpen then 2 else 1, what);
    more := segs + [seg];
    SegsAppend(segs, seg);
    Add(text, uni, toks, segs, pos, seg);
  }

  lemma {:induction false} TemplateCovered(text: string, uni: Unicode, pos: nat, st: LexState, index: nat, parts: string,
                                           holes: nat, openLine: nat, segs: seq<Seg>) returns (more: seq<Seg>)
    requires pos <= |text| && index < |st.toks| && Covered(text, uni, st.toks, segs, pos) && Ok(st)
    requires st.toks[index].kind == TplTok && TemplateSpec(text, uni, pos, st, index, parts, holes, openLine).Some?
    ensures var (stop, after) := TemplateSpec(text, uni, pos, st, index, parts, holes, openLine).value;
            Covered(text, uni, after.toks, more, stop) && OpenTemplates(more) == OpenTemplates(segs) - 1
    decreases |text| + 3 - pos, 2
  {
    hide TemplateTextEnd, CodeSpec, Unescape, Newlines, Ok, Covered, OpenTemplates, StartsAt;
    var stop := TemplateTextEnd(text, pos);
    var text' := parts + Unescape(text[pos..stop]);
    var counted := st.(line := st.line + Newlines(text[pos..stop]));
    more := StretchCovered(text, uni, pos, st.toks, segs);
    if text[stop] == '`' {
      more := MarkCovered(text, uni, stop, st.toks, more, Closing);
      Refill(text, uni, st.toks, more, stop + 1, index, Tok(TplTok, text', openLine, st.toks[index].block, holes));
    } else {
      LineOnly(st, counted.line);
      JsPlaces.HoleOpens(text, uni, pos, counted);
      more := MarkCovered(text, uni, stop, st.toks, more, HoleOpen);
      var hole := CodeSpec(text, uni, stop + 2, counted, true, |st.braces|);
      CodeOk(text, uni, stop + 2, counted, true, |st.braces|);
      more := CodeCovered(text, uni, stop + 2, counted, true, |st.braces|, more);
      more := TemplateCovered(text, uni, hole.value.0, hole.value.1, index, text' + HOLE, holes + 1, openLine, more);
    }
  }

  lemma NothingCovered(text: string, uni: Unicode)
    ensures Covered(text, uni, [], [], 0) && OpenTemplates([]) == 0
  {}

  /** A successful lex accounts for every character of the text, and leaves no template literal open. */
  lemma LexCovers(text: string, uni: Unicode, line: nat) returns (segs: seq<Seg>)
    ensures var r := LexSpec(text, uni, line);
            r.Some? ==> Covered(text, uni, r.value.toks, segs, |text|) && OpenTemplates(segs) == 0
  {
    hide CodeSpec, Covered, OpenTemplates;
    segs := [];
    if LexSpec(text, uni, line).Some? {
      var start := LexState(line, [], [], map[]);
      EmptyConsistent();
      NothingCovered(text, uni);
      JsPlaces.EndsAtEnd(text, uni, 0, start);
      segs := CodeCovered(text, uni, 0, start, false, 0, []);
    }
  }

  // ---------------------------------------------------------------- a failed lex

  /**
   What never closes at `pos`, with `braces` the `{` still open there and `open` template literals: a string, a
   comment, a `}` with nothing to close, a template literal or one of its holes.
   */
  ghost predicate Unclosed(text: string, pos: nat, braces: seq<nat>, open: int) {
    || (pos < |text| && (text[pos] == '"' || text[pos] == '\'') && forall end: nat :: !IsString(text, pos, end))
    || (StartsAt(text, pos, "/*") && forall i: nat :: pos + 2 <= i ==> !StartsAt(text, i, "*/"))
    || (pos < |text| && text[pos] == '}' && braces == [])
    || (open > 0 && (pos == |text| || (pos + 1 == |text| && text[pos] == '\\')))
  }

  /** Where the lexer gave up. */
  datatype Stop = Stop(pos: nat, st: LexState, segs: seq<Seg>)

  /** The text up to there is covered, the structure is kept, and what comes next never closes. */
  ghost predicate StuckAt(text: string, uni: Unicode, stop: Stop) {
    && Covered(text, uni, stop.st.toks, stop.segs, stop.pos) && Ok(stop.st)
    && Unclosed(text, stop.pos, stop.st.braces, OpenTemplates(stop.segs))
  }

  lemma FailedHere(text: string, uni: Unicode, pos: nat, st: LexState, inHole: bool, depth: nat, segs: seq<Seg>)
    requires pos < |text| && text[pos] != '`' && CodeStep(text, uni, pos, st, inHole, depth).Fail?
    ensures Unclosed(text, pos, st.braces, OpenTemplates(segs))
  {
    hide TokenAt, TemplateSpec, RegexHere, StringEnd, IsString, FindCommentEnd, StartsAt, Newlines, Pushed, OpenTemplates;
    if StartsAt(text, pos, "/*") {
      CommentEndIsFirst(text, pos + 2);
    } else if (text[pos] == '"' || text[pos] == '\'') && StringEnd(text, pos).None? {
      StringExactly(text, pos);
    }
  }

  lemma {:induction false} CodeStuck(text: string, uni: Unicode, pos: nat, st: LexState, inHole: bool, depth: nat,
                                     segs: seq<Seg>) returns (stop: Stop)
    requires pos <= |text| && Covered(text, uni, st.toks, segs, pos) && Ok(st)
    requires inHole ==> depth <= |st.braces| && OpenTemplates(segs) > 0
    requires OpenTemplates(segs) >= 0 && CodeSpec(text, uni, pos, st, inHole, depth).None?
    ensures StuckAt(text, uni, stop)
    decreases |text| + 3 - pos, 1
  {
    hide Covered, CodeStep, Ok, OpenTemplates;
    stop := Stop(pos, st, segs);
    if pos < |text| {
      var m := CodeStep(text, uni, pos, st, inHole, depth);
      if m.Go? {
        var more := CodeStepCovered(text, uni, pos, st, inHole, depth, segs);
        CodeStepOk(text, uni, pos, st, inHole, depth);
        stop := CodeStuck(text, uni, m.pos, m.st, inHole, depth, more);
      } else if text[pos] == '`' {
        stop := OpenStuck(text, uni, pos, st, inHole, depth, segs);
      } else {
        FailedHere(text, uni, pos, st, inHole, depth, segs);
      }
    }
  }

  lemma OpenStuck(text: string, uni: Unicode, pos: nat, st: LexState, inHole: bool, depth: nat, segs: seq<Seg>)
    returns (stop: Stop)
    requires pos < |text| && text[pos] == '`' && Covered(text, uni, st.toks, segs, pos) && Ok(st)
    requires OpenTemplates(segs) >= 0 && CodeStep(text, uni, pos, st, inHole, depth).Fail?
    ensures StuckAt(text, uni, stop)
    decreases |text| + 3 - pos, 0
  {
    hide Covered, Ok, OpenTemplates, TemplateSpec, Pushed;
    var more := OpenCovered(text, uni, pos, st, segs);
    PushedOk(st, TplTok, "");
    stop := TemplateStuck(text, uni, pos + 1, Pushed(st, TplTok, ""), |st.toks|, "", 0, st.line, more);
  }

  lemma {:induction false} TemplateStuck(text: string, uni: Unicode, pos: nat, st: LexState, index: nat, parts: string,
                                         holes: nat, openLine: nat, segs: seq<Seg>) returns (stop: Stop)
    requires pos <= |text| && index < |st.toks| && Covered(text, uni, st.toks, segs, pos) && Ok(st)
    requires st.toks[index].kind == TplTok && OpenTemplates(segs) > 0
    requires TemplateSpec(text, uni, pos, st, index, parts, holes, openLine).None?
    ensures StuckAt(text, uni, stop)
    decreases |text| + 3 - pos, 2
  {
    hide TemplateTextEnd, CodeSpec, Unescape, Newlines, Ok, Covered, OpenTemplates, StartsAt;
    var end := TemplateTextEnd(text, pos);
    var text' := parts + Unescape(text[pos..end]);
    var counted := st.(line := st.line + Newlines(text[pos..end]));
    var more := StretchCovered(text, uni, pos, st.toks, segs);
    stop := Stop(end, st, more);
    if end < |text| {
      JsPlaces.StopsAt(text, pos);
      if end + 2 <= |text| {
        LineOnly(st, counted.line);
        HoleStarts(text, end);
        more := MarkCovered(text, uni, end, st.toks, more, HoleOpen);
        var hole := CodeSpec(text, uni, end + 2, counted, true, |st.braces|);
        if hole.None? {
          stop := CodeStuck(text, uni, end + 2, counted, true, |st.braces|, more);
        } else {
          CodeOk(text, uni, end + 2, counted, true, |st.braces|);
          more := CodeCovered(text, uni, end + 2, counted, true, |st.braces|, more);
          stop := TemplateStuck(text, uni, hole.value.0, hole.value.1, index, text' + HOLE, holes + 1, openLine, more);
        }
      }
    }
  }

  lemma HoleStarts(text: string, pos: nat)
    requires pos + 2 <= |text| && text[pos] == '$' && text[pos + 1] == '{'
    ensures StartsAt(text, pos, "${")
  {}

  /**
   A lex fails only at something that never closes: where it stops, the text before is covered, and there a
   string, a comment, a template or a stray `}` is in the way, or the text has ended with a `{` open.
   */
  lemma LexFailsOnlyUnclosed(text: string, uni: Unicode, line: nat) returns (stop: Stop)
    requires LexSpec(text, uni, line).None?
    ensures StuckAt(text, uni, stop) ||
            (Covered(text, uni, stop.st.toks, stop.segs, |text|) && Ok(stop.st) && stop.st.braces != [])
  {
    hide CodeSpec, Covered, OpenTemplates;
    var start := LexState(line, [], [], map[]);
    EmptyConsistent();
    NothingCovered(text, uni);
    var end := CodeSpec(text, uni, 0, start, false, 0);
    if end.None? {
      stop := CodeStuck(text, uni, 0, start, false, 0, []);
    } else {
      JsPlaces.EndsAtEnd(text, uni, 0, start);
      CodeOk(text, uni, 0, start, false, 0);
      var segs := CodeCovered(text, uni, 0, start, false, 0, []);
      stop := Stop(|text|, end.value.1, segs);
    }
  }
}
