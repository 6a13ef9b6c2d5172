/**
 Glob patterns of the ratchets: the character loop of scripts/conventions_ratchet.py and the
 table-driven version of scripts/structure_ratchet.py compile a glob to the same pattern, and
 the pattern matches what the glob means.
 */
module Globs {
  import opened Options
  import opened Seqs

  /** One piece of a compiled glob: zero or more directories, anything, a run inside a segment, one character, itself. */
  datatype Item = Dirs | Any | Segment | One | Lit(c: char)

  predicate StartsWith(s: string, prefix: string) {
    |prefix| <= |s| && s[..|prefix|] == prefix
  }

  // ---------------------------------------------------------------- the two compilers

  const SPECIAL: string := "()[]{}?*+-|^$\\.&~# \t\n\r\U{0B}\U{0C}"

  /** `re.escape` of one character. */
  function Escape(c: char): string {
    if c in SPECIAL then ['\\', c] else [c]
  }

  function EscapeAll(s: string): string {
    if s == "" then "" else Escape(s[0]) + EscapeAll(s[1..])
  }

  function Render(item: Item): string {
    match item
    case Dirs => "(?:.*/)?"
    case Any => ".*"
    case Segment => "[^/]*"
    case One => "[^/]"
    case Lit(c) => Escape(c)
  }

  function RenderAll(items: seq<Item>): string {
    if items == [] then "" else Render(items[0]) + RenderAll(items[1..])
  }

  const END: string := "\\Z"

  /** What the front of a glob stands for, longest wildcard first, and how many characters that takes. */
  function FirstItem(glob: string): (r: (Item, nat))
    requires glob != ""
    ensures 0 < r.1 <= |glob|
  {
    if StartsWith(glob, "**/") then (Dirs, 3)
    else if StartsWith(glob, "**") then (Any, 2)
    else if glob[0] == '*' then (Segment, 1)
    else if glob[0] == '?' then (One, 1)
    else (Lit(glob[0]), 1)
  }

  function Items(glob: string): seq<Item> {
    if glob == "" then [] else [FirstItem(glob).0] + Items(glob[FirstItem(glob).1..])
  }

  lemma ItemStep(glob: string)
    requires glob != ""
    ensures RenderAll(Items(glob)) == Render(FirstItem(glob).0) + RenderAll(Items(glob[FirstItem(glob).1..]))
  {
    hide FirstItem, Render;
    var rest := Items(glob[FirstItem(glob).1..]);
    assert ([FirstItem(glob).0] + rest)[1..] == rest;
  }

  /** The character loop. */
  method CompileLoop(glob: string) returns (pattern: string)
    ensures pattern == RenderAll(Items(glob)) + END
    ensures forall path :: '\n' !in path ==> (PatternMatches(pattern, path) <==> GlobMatches(glob, path))
  {
    hide PatternMatches, GlobMatches, Items, RenderAll, Escape;
    var out := "";
    var i := 0;
    NoneLeft(glob);
    NoneLeft(RenderAll(Items(glob)));
    LoopMeaning(glob);
    while i < |glob|
      invariant i <= |glob|
      invariant out + RenderAll(Items(glob[i..])) == RenderAll(Items(glob))
    {
      var rest := glob[i..];
      var step, piece;
      if StartsWith(rest, "**/") {
        step, piece := 3, "(?:.*/)?";
      } else if StartsWith(rest, "**") {
        step, piece := 2, ".*";
      } else if glob[i] == '*' {
        step, piece := 1, "[^/]*";
      } else if glob[i] == '?' {
        step, piece := 1, "[^/]";
      } else {
        step, piece := 1, Escape(glob[i]);
      }
      assert Render(FirstItem(rest).0) == piece && FirstItem(rest).1 == step;
      ItemStep(rest);
      DropDrop(glob, i, step);
      Assoc(out, piece, RenderAll(Items(glob[i + step..])));
      out := out + piece;
      i := i + step;
    }
    assert glob[i..] == "";
    EmptyGlob();
    NoneLeft(out);
    pattern := out + END;
  }

  // ---------------------------------------------------------------- the table-driven compiler

  /** The wildcard at the front of `s`, in the order of the split pattern; "" when there is none. */
  function WildAt(s: string): (w: string)
    ensures w == "" || StartsWith(s, w)
    ensures |w| <= |s|
  {
    if StartsWith(s, "**/") then "**/"
    else if StartsWith(s, "**") then "**"
    else if StartsWith(s, "*") then "*"
    else if StartsWith(s, "?") then "?"
    else ""
  }

  /** Where the first wildcard starts, or the length. */
  function NextWild(s: string): (p: nat)
    ensures p <= |s|
    ensures p < |s| ==> WildAt(s[p..]) != ""
  {
    if s == "" || WildAt(s) != "" then 0 else 1 + NextWild(s[1..])
  }

  /** `re.split` with the wildcards captured: text and wildcards by turns. */
  function SplitPieces(glob: string): seq<string> {
    var p := NextWild(glob);
    if p == |glob| then [glob]
    else
      var w := WildAt(glob[p..]);
      [glob[..p], w] + SplitPieces(glob[p + |w|..])
  }

  const WILD: map<string, string> := map["**/" := "(?:.*/)?", "**" := ".*", "*" := "[^/]*", "?" := "[^/]"]

  /** A wildcard's entry in the table; any other piece escaped. */
  function PiecePattern(piece: string): string {
    if piece in WILD then WILD[piece] else EscapeAll(piece)
  }

  function JoinPieces(pieces: seq<string>): string {
    if pieces == [] then "" else PiecePattern(pieces[0]) + JoinPieces(pieces[1..])
  }

  function CompileTable(glob: string): string {
    JoinPieces(SplitPieces(glob)) + END
  }

  /** The text before the first wildcard compiles to itself, escaped. */
  lemma {:induction false} LiteralPrefix(glob: string)
    ensures RenderAll(Items(glob)) == EscapeAll(glob[..NextWild(glob)]) + RenderAll(Items(glob[NextWild(glob)..]))
    ensures glob[..NextWild(glob)] !in WILD
  {
    hide WildAt, Items, RenderAll, FirstItem, Escape;
    var p := NextWild(glob);
    NoneLeft(glob);
    NoneLeft(RenderAll(Items(glob)));
    if p > 0 {
      LiteralPrefix(glob[1..]);
      NotWild(glob);
      ItemStep(glob);
      TakeDrop(glob, p, 1);
      DropDrop(glob, 1, p - 1);
      Assoc(Escape(glob[0]), EscapeAll(glob[..p][1..]), RenderAll(Items(glob[p..])));
    }
  }

  lemma NotWild(s: string)
    requires s != "" && WildAt(s) == ""
    ensures s[0] != '*' && s[0] != '?' && FirstItem(s) == (Lit(s[0]), 1)
  {
    assert s[..1] == [s[0]];
  }

  lemma WildStep(s: string)
    requires WildAt(s) != ""
    ensures WildAt(s) in WILD
    ensures RenderAll(Items(s)) == WILD[WildAt(s)] + RenderAll(Items(s[|WildAt(s)|..]))
  {
    hide RenderAll, Items;
    var w := WildAt(s);
    assert s[0] == s[..|w|][0] == w[0];
    ItemStep(s);
  }

  lemma {:induction false} TableAgrees(glob: string)
    ensures JoinPieces(SplitPieces(glob)) == RenderAll(Items(glob))
    decreases |glob|
  {
    hide WildAt, NextWild, Items, PiecePattern, StartsWith, JoinPieces, RenderAll, EscapeAll;
    var p := NextWild(glob);
    LiteralPrefix(glob);
    PlainPiece(glob[..p]);
    if p == |glob| {
      NoneLeft(glob);
      EmptyGlob();
      NoneLeft(EscapeAll(glob));
      OnePiece(glob);
    } else {
      var s := glob[p..];
      var w := WildAt(s);
      var pieces := SplitPieces(s[|w|..]);
      WildStep(s);
      WildPiece(w);
      TableAgrees(s[|w|..]);
      DropDrop(glob, p, |w|);
      TwoPieces(glob[..p], w, pieces);
    }
  }

  lemma EmptyGlob()
    ensures RenderAll(Items("")) == ""
  {}

  lemma PlainPiece(piece: string)
    requires piece !in WILD
    ensures PiecePattern(piece) == EscapeAll(piece)
  {}

  lemma WildPiece(w: string)
    requires w in WILD
    ensures PiecePattern(w) == WILD[w] && w != ""
  {}

  lemma OnePiece(text: string)
    ensures JoinPieces([text]) == PiecePattern(text)
  {
    hide PiecePattern;
    assert [text][1..] == [] && JoinPieces([]) == "";
    NoneLeft(PiecePattern(text));
  }

  lemma TwoPieces(text: string, w: string, pieces: seq<string>)
    ensures JoinPieces([text, w] + pieces) == PiecePattern(text) + (PiecePattern(w) + JoinPieces(pieces))
  {
    hide PiecePattern;
    assert ([text, w] + pieces)[1..] == [w] + pieces;
    assert ([w] + pieces)[1..] == pieces;
  }

  /** Both compilers produce the same pattern for every glob. */
  lemma CompilersAgree(glob: string)
    ensures CompileTable(glob) == RenderAll(Items(glob)) + END
  {
    TableAgrees(glob);
  }

  // ---------------------------------------------------------------- what a pattern matches

  /** The part of regular expressions a compiled glob uses. */
  datatype Regex =
    | Empty
    | Char(c: char)
    | Dot              // any character but a newline
    | NotSlash         // any character but a slash
    | Then(first: Regex, second: Regex)
    | Star(body: Regex)
    | Maybe(body: Regex)

  /** The whole of `s` is in the language of `r`. */
  ghost predicate Lang(r: Regex, s: string)
    decreases r, |s|
  {
    match r
    case Empty => s == ""
    case Char(c) => s == [c]
    case Dot => |s| == 1 && s[0] != '\n'
    case NotSlash => |s| == 1 && s[0] != '/'
    case Then(a, b) => exists k :: 0 <= k <= |s| && Lang(a, s[..k]) && Lang(b, s[k..])
    case Star(a) => s == "" || exists k :: 0 < k <= |s| && Lang(a, s[..k]) && Lang(r, s[k..])
    case Maybe(a) => s == "" || Lang(a, s)
  }

  /** Characters with a meaning of their own outside a class; each must be escaped to stand for itself. */
  const META: string := ".^$*+?{}[]\\|()"

  predicate Alphanumeric(c: char) { 'a' <= c <= 'z' || 'A' <= c <= 'Z' || '0' <= c <= '9' }

  predicate QuantifierFirst(s: string) { s != "" && s[0] in "*+?{" }

  /** One atom at the front of a pattern text and what follows it; None outside this part of the syntax. */
  function ReadAtom(s: string): (r: Option<(Regex, string)>)
    ensures r.Some? ==> |r.value.1| < |s|
    decreases |s|, 0
  {
    if s == "" then None
    else if StartsWith(s, "(?:") then ReadGroup(s[3..])
    else if StartsWith(s, "[^/]") then Some((NotSlash, s[4..]))
    else if s[0] == '.' then Some((Dot, s[1..]))
    else if s[0] == '\\' then
      if |s| > 1 && !Alphanumeric(s[1]) then Some((Char(s[1]), s[2..])) else None
    else if s[0] in META then None
    else Some((Char(s[0]), s[1..]))
  }

  /** An atom with its quantifier; a second quantifier would make it lazy or possessive, or is an error. */
  function ReadRepeated(s: string): (r: Option<(Regex, string)>)
    ensures r.Some? ==> |r.value.1| < |s|
    decreases |s|, 1
  {
    var atom := ReadAtom(s);
    if atom.None? || !QuantifierFirst(atom.value.1) then atom
    else
      var (body, rest) := atom.value;
      if QuantifierFirst(rest[1..]) then None
      else if rest[0] == '*' then Some((Star(body), rest[1..]))
      else if rest[0] == '?' then Some((Maybe(body), rest[1..]))
      else None
  }

  /** The inside of a group, up to its parenthesis. */
  function ReadGroup(s: string): (r: Option<(Regex, string)>)
    ensures r.Some? ==> |r.value.1| < |s|
    decreases |s|, 2
  {
    if s != "" && s[0] == ')' then Some((Empty, s[1..]))
    else
      var first := ReadRepeated(s);
      if first.None? then None
      else
        var second := ReadGroup(first.value.1);
        if second.None? then None else Some((Then(first.value.0, second.value.0), second.value.1))
  }

  /** A whole pattern text, which ends in the end-of-text anchor. */
  function ReadPattern(s: string): Option<Regex>
    decreases |s|
  {
    if s == END then Some(Empty)
    else
      var first := ReadRepeated(s);
      if first.None? then None
      else
        var second := ReadPattern(first.value.1);
        if second.None? then None else Some(Then(first.value.0, second.value))
  }

  /** The pattern text matches the path, from its start to its end. */
  ghost predicate PatternMatches(pattern: string, path: string) {
    var r := ReadPattern(pattern);
    r.Some? && Lang(r.value, path)
  }

  /** The expression an item stands for. */
  function ItemRegex(item: Item): Regex {
    match item
    case Dirs => Maybe(Then(Star(Dot), Then(Char('/'), Empty)))
    case Any => Star(Dot)
    case Segment => Star(NotSlash)
    case One => NotSlash
    case Lit(c) => Char(c)
  }

  function PatternRegex(items: seq<Item>): Regex {
    if items == [] then Empty else Then(ItemRegex(items[0]), PatternRegex(items[1..]))
  }

  // ---------------------------------------------------------------- reading back what was written

  lemma DotReads(rest: string)
    ensures ReadAtom("." + rest) == Some((Dot, rest))
  {
    assert ("." + rest)[0] == '.' && ("." + rest)[1..] == rest;
  }

  lemma ClassReads(rest: string)
    ensures ReadAtom("[^/]" + rest) == Some((NotSlash, rest))
  {
    var s := "[^/]" + rest;
    assert s[0] == '[' && s[..4] == "[^/]" && s[4..] == rest;
  }

  lemma CharReads(c: char, rest: string)
    ensures ReadAtom(Escape(c) + rest) == Some((Char(c), rest))
  {
    var s := Escape(c) + rest;
    if c in SPECIAL {
      assert Escape(c) == ['\\', c] && s[0] == '\\' && s[1] == c && s[2..] == rest;
      EscapedReads(s);
    } else {
      assert Escape(c) == [c] && s[0] == c && s[1..] == rest;
    }
  }

  lemma EscapedReads(s: string)
    requires |s| > 1 && s[0] == '\\' && !Alphanumeric(s[1])
    ensures ReadAtom(s) == Some((Char(s[1]), s[2..]))
  {}

  lemma RepeatReads(s: string, body: Regex, rest: string)
    requires !QuantifierFirst(rest)
    ensures ReadAtom(s) == Some((body, rest)) ==> ReadRepeated(s) == Some((body, rest))
    ensures ReadAtom(s) == Some((body, "*" + rest)) ==> ReadRepeated(s) == Some((Star(body), rest))
    ensures ReadAtom(s) == Some((body, "?" + rest)) ==> ReadRepeated(s) == Some((Maybe(body), rest))
  {
    hide ReadAtom;
    assert ("*" + rest)[0] == '*' && ("*" + rest)[1..] == rest;
    assert ("?" + rest)[0] == '?' && ("?" + rest)[1..] == rest;
  }

  lemma GroupReads(s: string, body: Regex, rest: string)
    requires s != "" && s[0] != ')' && ReadRepeated(s) == Some((body, ")" + rest))
    ensures ReadGroup(s) == Some((Then(body, Empty), rest))
  {
    hide ReadRepeated;
    assert (")" + rest)[0] == ')' && (")" + rest)[1..] == rest;
    assert ReadGroup(")" + rest) == Some((Empty, rest));
  }

  lemma GroupOpens(s: string)
    ensures ReadAtom("(?:" + s) == ReadGroup(s)
  {
    hide ReadGroup;
    assert ("(?:" + s)[..3] == "(?:" && ("(?:" + s)[3..] == s;
  }

  lemma DirsReads(rest: string)
    ensures ReadAtom("(?:.*/)" + rest) == Some((Then(Star(Dot), Then(Char('/'), Empty)), rest))
  {
    hide ReadAtom, ReadRepeated;
    var slash, inner := "/)" + rest, ".*/)" + rest;
    CharReads('/', ")" + rest);
    assert slash == Escape('/') + (")" + rest);
    assert slash[0] == '/' && inner[0] == '.';
    RepeatReads(slash, Char('/'), ")" + rest);
    GroupReads(slash, Char('/'), rest);
    DotReads("*" + slash);
    assert inner == "." + ("*" + slash);
    RepeatReads(inner, Dot, slash);
    assert ReadGroup(inner) == Some((Then(Star(Dot), Then(Char('/'), Empty)), rest));
    GroupOpens(inner);
    assert "(?:.*/)" + rest == "(?:" + inner;
  }

  /** The text of an item reads as its expression, whatever follows but a quantifier. */
  lemma ItemReads(item: Item, rest: string)
    requires !QuantifierFirst(rest)
    ensures ReadRepeated(Render(item) + rest) == Some((ItemRegex(item), rest))
  {
    hide ReadAtom, ReadRepeated, QuantifierFirst, Escape;
    match item {
      case Dirs =>
        DirsReads("?" + rest);
        assert "(?:.*/)?" + rest == "(?:.*/)" + ("?" + rest);
        RepeatReads("(?:.*/)?" + rest, Then(Star(Dot), Then(Char('/'), Empty)), rest);
      case Any =>
        DotReads("*" + rest);
        assert ".*" + rest == "." + ("*" + rest);
        RepeatReads(".*" + rest, Dot, rest);
      case Segment =>
        ClassReads("*" + rest);
        assert "[^/]*" + rest == "[^/]" + ("*" + rest);
        RepeatReads("[^/]*" + rest, NotSlash, rest);
      case One =>
        ClassReads(rest);
        RepeatReads("[^/]" + rest, NotSlash, rest);
      case Lit(c) =>
        CharReads(c, rest);
        RepeatReads(Escape(c) + rest, Char(c), rest);
    }
  }

  lemma NoQuantifierFirst(items: seq<Item>)
    ensures !QuantifierFirst(RenderAll(items) + END)
  {
    if items != [] {
      var first := Render(items[0]);
      assert (RenderAll(items) + END)[0] == first[0];
      assert first[0] !in "*+?{";
    }
  }

  /** The written pattern reads back as the expression of the glob's items: nothing is lost to escaping or context. */
  lemma {:induction false} PatternReads(items: seq<Item>)
    ensures ReadPattern(RenderAll(items) + END) == Some(PatternRegex(items))
  {
    hide ReadRepeated, QuantifierFirst, ItemRegex, Render;
    if items != [] {
      var rest := RenderAll(items[1..]) + END;
      NoQuantifierFirst(items[1..]);
      ItemReads(items[0], rest);
      PatternReads(items[1..]);
      Assoc(Render(items[0]), RenderAll(items[1..]), END);
      assert Render(items[0]) + rest != END;
    }
  }

  // ---------------------------------------------------------------- the meaning of a glob

  /** What a glob means, read directly. */
  predicate GlobMatches(glob: string, path: string)
    decreases |glob|, |path|
  {
    if glob == "" then path == ""
    else
      var (item, n) := FirstItem(glob);
      var rest := glob[n..];
      match item
      case Dirs =>
        GlobMatches(rest, path) || exists k :: 0 < k <= |path| && path[k - 1] == '/' && GlobMatches(rest, path[k..])
      case Any => exists k :: 0 <= k <= |path| && GlobMatches(rest, path[k..])
      case Segment => GlobMatches(rest, path) || (path != "" && path[0] != '/' && GlobMatches(glob, path[1..]))
      case One => path != "" && path[0] != '/' && GlobMatches(rest, path[1..])
      case Lit(c) => path != "" && path[0] == c && GlobMatches(rest, path[1..])
  }

  /** What each piece of a glob means, by the characters it is written with. */
  lemma GlobMeaning(rest: string, c: char, path: string)
    ensures GlobMatches("", path) <==> path == ""
    ensures GlobMatches("**/" + rest, path) <==>
            GlobMatches(rest, path) || exists k :: 0 < k <= |path| && path[k - 1] == '/' && GlobMatches(rest, path[k..])
    ensures !StartsWith(rest, "/") ==>
              (GlobMatches("**" + rest, path) <==> exists k :: 0 <= k <= |path| && GlobMatches(rest, path[k..]))
    ensures !StartsWith(rest, "*") ==>
              (GlobMatches("*" + rest, path) <==>
               exists k :: 0 <= k <= |path| && '/' !in path[..k] && GlobMatches(rest, path[k..]))
    ensures GlobMatches("?" + rest, path) <==> path != "" && path[0] != '/' && GlobMatches(rest, path[1..])
    ensures c != '*' && c != '?' ==>
              (GlobMatches([c] + rest, path) <==> path != "" && path[0] == c && GlobMatches(rest, path[1..]))
  {
    FrontOf(rest, c);
    hide FirstItem, StartsWith;
    assert ("**/" + rest)[3..] == rest && ("**" + rest)[2..] == rest && ("*" + rest)[1..] == rest;
    assert ("?" + rest)[1..] == rest && ([c] + rest)[1..] == rest;
    if !StartsWith(rest, "*") { RunMeaning(rest, path); }
  }

  lemma FrontOf(rest: string, c: char)
    ensures FirstItem("**/" + rest) == (Dirs, 3)
    ensures !StartsWith(rest, "/") ==> FirstItem("**" + rest) == (Any, 2)
    ensures !StartsWith(rest, "*") ==> FirstItem("*" + rest) == (Segment, 1)
    ensures FirstItem("?" + rest) == (One, 1)
    ensures c != '*' && c != '?' ==> FirstItem([c] + rest) == (Lit(c), 1)
  {
    assert ("**/" + rest)[..3] == "**/" && ("**" + rest)[..2] == "**";
    assert |rest| >= 1 ==> ("**" + rest)[..3] == "**" + rest[..1] && ("*" + rest)[..2] == "*" + rest[..1];
    assert rest != "" ==> rest[..1] == [rest[0]];
    assert |rest| >= 1 && ("**" + rest)[..3] == "**/" ==> ("**" + rest)[2] == '/';
    assert |rest| >= 1 && ("*" + rest)[..2] == "**" ==> ("*" + rest)[1] == '*';
    assert |rest| >= 2 && ("*" + rest)[..3] == "**/" ==> ("*" + rest)[1] == '*';
    var q, l := "?" + rest, [c] + rest;
    assert q[0] == '?' && l[0] == c;
    assert |q| >= 2 ==> q[..2][0] == '?';
    assert |q| >= 3 ==> q[..3][0] == '?';
    assert |l| >= 2 ==> l[..2][0] == c;
    assert |l| >= 3 ==> l[..3][0] == c;
  }

  lemma RunMeaning(rest: string, path: string)
    requires !StartsWith(rest, "*")
    ensures GlobMatches("*" + rest, path) <==>
            exists k :: 0 <= k <= |path| && '/' !in path[..k] && GlobMatches(rest, path[k..])
  {
    FrontOf(rest, 'a');
    hide FirstItem, StartsWith;
    assert ("*" + rest)[1..] == rest;
    SegmentStep("*" + rest, path);
    forall k | 0 <= k <= |path|
      ensures SplitsAt(Segment, rest, path, k) <==> '/' !in path[..k] && GlobMatches(rest, path[k..]) {}
  }

  lemma {:induction false} StarDot(s: string)
    ensures Lang(Star(Dot), s) <==> '\n' !in s
    decreases |s|
  {
    if s != "" {
      HeadTail(s);
      StarDot(s[1..]);
      assert s[..1] == [s[0]];
      assert Lang(Dot, s[..1]) <==> s[0] != '\n';
      forall k | 0 < k <= |s| && Lang(Dot, s[..k]) ensures k == 1 {}
    }
  }

  lemma {:induction false} StarNotSlash(s: string)
    ensures Lang(Star(NotSlash), s) <==> '/' !in s
    decreases |s|
  {
    if s != "" {
      HeadTail(s);
      StarNotSlash(s[1..]);
      assert s[..1] == [s[0]];
      assert Lang(NotSlash, s[..1]) <==> s[0] != '/';
      forall k | 0 < k <= |s| && Lang(NotSlash, s[..k]) ensures k == 1 {}
    }
  }

  lemma SlashLang(s: string)
    ensures Lang(Then(Char('/'), Empty), s) <==> s == "/"
  {
    NoneLeft(s);
    if s == "/" { assert Lang(Char('/'), s[..1]) && Lang(Empty, s[1..]); }
    forall k | 0 <= k <= |s| && Lang(Char('/'), s[..k]) && Lang(Empty, s[k..]) ensures s == "/" {}
  }

  /** Zero or more directories: empty, or any text that ends in a slash. */
  lemma DirsLang(s: string)
    requires '\n' !in s
    ensures Lang(ItemRegex(Dirs), s) <==> s == "" || s[|s| - 1] == '/'
  {
    var slash := Then(Char('/'), Empty);
    var body := Then(Star(Dot), slash);
    if s != "" {
      var k := |s| - 1;
      StarDot(s[..k]);
      SlashLang(s[k..]);
      assert s[k..] == [s[k]];
      if s[k] == '/' { assert Lang(Star(Dot), s[..k]) && Lang(slash, s[k..]); }
      if Lang(body, s) {
        var m :| 0 <= m <= |s| && Lang(Star(Dot), s[..m]) && Lang(slash, s[m..]);
        SlashLang(s[m..]);
      }
    }
  }

  /** What each item takes from the front of a newline-free path. */
  predicate Takes(item: Item, s: string) {
    match item
    case Dirs => s == "" || s[|s| - 1] == '/'
    case Any => true
    case Segment => '/' !in s
    case One => |s| == 1 && s[0] != '/'
    case Lit(c) => s == [c]
  }

  lemma ItemLang(item: Item, s: string)
    requires '\n' !in s
    ensures Lang(ItemRegex(item), s) <==> Takes(item, s)
  {
    match item {
      case Dirs => DirsLang(s);
      case Any => StarDot(s);
      case Segment => StarNotSlash(s);
      case _ =>
    }
  }

  /** Some front part of the path goes to the item, the rest to the rest of the glob. */
  ghost predicate SplitsAt(item: Item, rest: string, path: string, k: nat)
    requires k <= |path|
  {
    Takes(item, path[..k]) && GlobMatches(rest, path[k..])
  }

  /** The direct matcher, item by item. */
  lemma {:induction false} GlobStep(glob: string, path: string)
    requires glob != ""
    ensures var (item, n) := FirstItem(glob);
            GlobMatches(glob, path) <==> exists k :: 0 <= k <= |path| && SplitsAt(item, glob[n..], path, k)
    decreases |path|
  {
    hide FirstItem, SplitsAt;
    var (item, n) := FirstItem(glob);
    var rest := glob[n..];
    match item {
      case Dirs => DirsStep(rest, path);
      case Any => AnyStep(rest, path);
      case Segment => SegmentStep(glob, path);
      case One => OneStep(item, rest, path);
      case Lit(c) => OneStep(item, rest, path);
    }
  }

  lemma DirsStep(rest: string, path: string)
    ensures SplitsAt(Dirs, rest, path, 0) <==> GlobMatches(rest, path)
    ensures forall k :: 0 < k <= |path| ==>
              (SplitsAt(Dirs, rest, path, k) <==> path[k - 1] == '/' && GlobMatches(rest, path[k..]))
  {
    hide GlobMatches;
    NoneLeft(path);
  }

  lemma AnyStep(rest: string, path: string)
    ensures forall k :: 0 <= k <= |path| ==> (SplitsAt(Any, rest, path, k) <==> GlobMatches(rest, path[k..]))
  {
    hide GlobMatches;
  }

  lemma OneStep(item: Item, rest: string, path: string)
    requires item.One? || item.Lit?
    ensures (exists k :: 0 <= k <= |path| && SplitsAt(item, rest, path, k)) <==>
            path != "" && Takes(item, path[..1]) && GlobMatches(rest, path[1..])
    ensures path != "" ==> path[..1] == [path[0]]
  {
    if path != "" && Takes(item, path[..1]) && GlobMatches(rest, path[1..]) { assert SplitsAt(item, rest, path, 1); }
    forall k | 0 <= k <= |path| && SplitsAt(item, rest, path, k) ensures k == 1 {
      assert |path[..k]| == 1;
    }
  }

  lemma {:induction false} SegmentStep(glob: string, path: string)
    requires glob != "" && FirstItem(glob).0 == Segment
    ensures GlobMatches(glob, path) <==>
            exists k :: 0 <= k <= |path| && SplitsAt(Segment, glob[FirstItem(glob).1..], path, k)
    decreases |path|
  {
    hide FirstItem;
    var rest := glob[FirstItem(glob).1..];
    NoneLeft(path);
    assert SplitsAt(Segment, rest, path, 0) <==> GlobMatches(rest, path);
    if path != "" {
      SegmentStep(glob, path[1..]);
      forall k | 0 < k <= |path|
        ensures SplitsAt(Segment, rest, path, k) <==> path[0] != '/' && SplitsAt(Segment, rest, path[1..], k - 1)
      {
        TakeDrop(path, k, 1);
        HeadTail(path[..k]);
        DropDrop(path, 1, k - 1);
      }
      if k :| 0 <= k <= |path[1..]| && SplitsAt(Segment, rest, path[1..], k) {
        assert SplitsAt(Segment, rest, path, k + 1) <==> path[0] != '/';
      }
    }
  }

  lemma {:induction false} ItemsMeanGlob(glob: string, path: string)
    requires '\n' !in path
    ensures Lang(PatternRegex(Items(glob)), path) <==> GlobMatches(glob, path)
    decreases |glob|
  {
    if glob != "" {
      hide FirstItem, Takes, GlobMatches;
      var (item, n) := FirstItem(glob);
      var rest := glob[n..];
      GlobStep(glob, path);
      assert Items(glob)[0] == item && Items(glob)[1..] == Items(rest);
      var tail := PatternRegex(Items(rest));
      forall k | 0 <= k <= |path|
        ensures Lang(ItemRegex(item), path[..k]) && Lang(tail, path[k..]) <==> SplitsAt(item, rest, path, k)
      {
        ItemLang(item, path[..k]);
        ItemsMeanGlob(rest, path[k..]);
      }
    }
  }

  /** The compiled text, read as a regular expression, means what the glob means on every path without a newline. */
  lemma PatternMeansGlob(glob: string, path: string)
    requires '\n' !in path
    ensures PatternMatches(CompileTable(glob), path) <==> GlobMatches(glob, path)
  {
    hide GlobMatches, CompileTable;
    CompilersAgree(glob);
    PatternReads(Items(glob));
    ItemsMeanGlob(glob, path);
  }

  /** The same for the character loop's text. */
  lemma LoopMeaning(glob: string)
    ensures forall path :: '\n' !in path ==>
              (PatternMatches(RenderAll(Items(glob)) + END, path) <==> GlobMatches(glob, path))
  {
    hide PatternMatches, GlobMatches, CompileTable;
    CompilersAgree(glob);
    forall path | '\n' !in path
      ensures PatternMatches(RenderAll(Items(glob)) + END, path) <==> GlobMatches(glob, path)
    {
      PatternMeansGlob(glob, path);
    }
  }

  /** Exactly the newline-free paths: on any other path `**` already differs. */
  lemma MeansGlobExactly(path: string)
    ensures (forall glob :: PatternMatches(CompileTable(glob), path) <==> GlobMatches(glob, path)) <==> '\n' !in path
  {
    hide PatternMatches, GlobMatches, CompileTable;
    if '\n' !in path {
      forall glob ensures PatternMatches(CompileTable(glob), path) <==> GlobMatches(glob, path) {
        PatternMeansGlob(glob, path);
      }
    } else {
      AnyStopsAtNewline(path);
    }
  }

  lemma AnyStopsAtNewline(path: string)
    requires '\n' in path
    ensures GlobMatches("**", path) && !PatternMatches(CompileTable("**"), path)
  {
    hide CompileTable, ReadPattern, RenderAll, Lang;
    assert FirstItem("**") == (Any, 2);
    assert "**"[2..] == "" && path[|path|..] == "";
    assert GlobMatches("", path[|path|..]);
    assert Items("**") == [Any];
    CompilersAgree("**");
    PatternReads([Any]);
    assert PatternRegex([Any]) == Then(Star(Dot), Empty);
    if PatternMatches(CompileTable("**"), path) { AnyLang(path); }
  }

  lemma AnyLang(path: string)
    requires Lang(Then(Star(Dot), Empty), path)
    ensures '\n' !in path
  {
    var k :| 0 <= k <= |path| && Lang(Star(Dot), path[..k]) && Lang(Empty, path[k..]);
    NoneLeft(path);
    StarDot(path[..k]);
  }
}
