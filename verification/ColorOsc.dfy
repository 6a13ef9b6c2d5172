/**
 The colour-query filter of the PTY reader (src/session_host_text.py).

 OSC 10/11/12 queries and replies are removed from a stream that arrives in
 arbitrary chunks.  A trailing fragment that may still become such a sequence is
 held back as a carry.  The two patterns of the source are written here as
 recognisers; the search is leftmost and the optional terminator of a query is
 greedy, as in the source.
 */
module ColorOsc {
  import opened Seqs

  const ESC: char := '\U{1B}'
  const BEL: char := '\U{07}'
  const CARRY_MAX: nat := 64

  /** Payload characters: hexadecimal digits, and `/` in the `rgb:` form only. */
  predicate InPayload(c: char, slash: bool) {
    '0' <= c <= '9' || 'A' <= c <= 'F' || 'a' <= c <= 'f' || (slash && c == '/')
  }

  // ---------------------------------------------------------------- the complete pattern

  /** The shared head `ESC ] 1 (0|1|2) ;`, as far as `s` goes. */
  predicate FitsIntro(s: string) {
    && (|s| > 0 ==> s[0] == ESC)
    && (|s| > 1 ==> s[1] == ']')
    && (|s| > 2 ==> s[2] == '1')
    && (|s| > 3 ==> '0' <= s[3] <= '2')
    && (|s| > 4 ==> s[4] == ';')
  }

  /** Length of the reply form at the front of a body: 1 for `#`, 4 for `rgb:`, 0 for neither. */
  function ReplyHead(body: string): (n: nat)
    ensures n <= |body|
  {
    if |body| >= 1 && body[0] == '#' then 1
    else if |body| >= 4 && body[0] == 'r' && body[1] == 'g' && body[2] == 'b' && body[3] == ':' then 4
    else 0
  }

  /** Length of a terminator at the front of `s`: BEL, or ST (`ESC \`); 0 when there is none. */
  function TermLen(s: string): (n: nat)
    ensures n <= |s|
  {
    if |s| >= 1 && s[0] == BEL then 1
    else if |s| >= 2 && s[0] == ESC && s[1] == '\\' then 2
    else 0
  }

  /** How many payload characters `s` starts with. */
  function PayloadLen(s: string, slash: bool): (n: nat)
    ensures n <= |s|
  {
    if s != "" && InPayload(s[0], slash) then 1 + PayloadLen(s[1..], slash) else 0
  }

  /** Length of a payload and its terminator: at least one payload character, terminator required. */
  function ReplyLen(s: string, slash: bool): (n: nat)
    ensures n <= |s|
  {
    var run := PayloadLen(s, slash);
    var term := TermLen(s[run..]);
    if run > 0 && term > 0 then run + term else 0
  }

  /** Length of what follows the head: a query with its optional terminator, or a whole reply; 0 for neither. */
  function BodyLen(body: string): (n: nat)
    ensures n <= |body|
  {
    if |body| >= 1 && body[0] == '?' then 1 + TermLen(body[1..])
    else
      var head := ReplyHead(body);
      var reply := ReplyLen(body[head..], head == 4);
      if head > 0 && reply > 0 then head + reply else 0
  }

  /** Length of the colour sequence at the front of `s`, 0 when there is none. */
  function MatchLen(s: string): (n: nat)
    ensures n <= |s|
  {
    if |s| >= 5 && FitsIntro(s) && BodyLen(s[5..]) > 0 then 5 + BodyLen(s[5..]) else 0
  }

  // ---------------------------------------------------------------- the pending pattern

  /** An optional ESC up to the end of the data. */
  predicate PendingEsc(s: string) {
    s == "" || s == [ESC]
  }

  /** A payload run in progress, then an optional ESC, up to the end. */
  predicate PendingPayload(s: string, slash: bool) {
    PendingEsc(s) || (s != "" && InPayload(s[0], slash) && PendingPayload(s[1..], slash))
  }

  predicate PendingBody(body: string) {
    || body == "" || body == "r" || body == "rg" || body == "rgb"
    || (body[0] == '?' && PendingEsc(body[1..]))
    || (ReplyHead(body) > 0 && PendingPayload(body[ReplyHead(body)..], ReplyHead(body) == 4))
  }

  /** A fragment that must be held back: the start of a colour sequence, or a query with no terminator yet. */
  predicate IsPending(s: string) {
    s != "" && FitsIntro(s) && (|s| > 5 ==> PendingBody(s[5..]))
  }

  /** Where the leftmost pending fragment that reaches the end of `s` starts; `|s|` when there is none. */
  function PendingStart(s: string): (a: nat)
    ensures a <= |s|
  {
    if s == "" || IsPending(s) then 0 else 1 + PendingStart(s[1..])
  }

  function PendingLen(s: string): nat {
    |s| - PendingStart(s)
  }

  // ---------------------------------------------------------------- the filter

  /** Removes every colour sequence, leftmost first. */
  function Strip(s: string): string {
    if s == "" then ""
    else if MatchLen(s) > 0 then Strip(s[MatchLen(s)..])
    else [s[0]] + Strip(s[1..])
  }

  /** The general path of the filter, on the carry and the chunk joined. */
  function Filter(data: string): (string, string) {
    var a := PendingStart(data);
    if a < |data| && |data| - a <= CARRY_MAX then (Strip(data[..a]), data[a..])
    else (Strip(data), "")
  }

  /** One read: the clean output and the new carry. */
  function StripColorOsc(chunk: string, carry: string): (string, string) {
    if carry == "" && ESC !in chunk then (chunk, "") else Filter(carry + chunk)
  }

  /** A whole run: the outputs joined, and the last carry. */
  function FilterRun(chunks: seq<string>, carry: string): (string, string) {
    if chunks == [] then ("", carry)
    else
      var first := StripColorOsc(chunks[0], carry);
      var rest := FilterRun(chunks[1..], first.1);
      (first.0 + rest.0, rest.1)
  }

  // ---------------------------------------------------------------- the pattern as a language

  /** The strings the complete pattern denotes: the head, then a query or a reply with its terminator. */
  ghost predicate IsColorSequence(s: string) {
    |s| >= 5 && FitsIntro(s) && exists n :: 0 < n <= |s| - 5 && IsColorTail(s[5..][..n], s[5..][n..])
  }

  /** A query ends in BEL, in ST or in nothing; a reply always in BEL or ST. */
  predicate IsColorTail(body: string, term: string) {
    || (body == "?" && term == "")
    || ((body == "?" || IsReplyBody(body)) && IsTerm(term))
  }

  predicate IsTerm(term: string) {
    term == [BEL] || term == [ESC, '\\']
  }

  predicate IsReplyBody(body: string) {
    var head := ReplyHead(body);
    head > 0 && |body| > head && forall i :: head <= i < |body| ==> InPayload(body[i], head == 4)
  }

  // The same language letter by letter, naming none of the recognisers.

  const DIGITS: string := "0123456789"
  const UPPER: string := "ABCDEF"
  const LOWER: string := "abcdef"
  const HEX: string := DIGITS + UPPER + LOWER

  predicate Over(s: string, letters: string) {
    forall c :: c in s ==> c in letters
  }

  predicate SpelledBody(body: string) {
    || body == "?"
    || (|body| > 4 && body[..4] == "rgb:" && Over(body[4..], HEX + "/"))
    || (|body| > 1 && body[..1] == "#" && Over(body[1..], HEX))
  }

  predicate SpelledOut(s: string, d: char, body: string, term: string) {
    && s == [ESC, ']', '1', d, ';'] + (body + term) && d in "012" && SpelledBody(body)
    && (term == [BEL] || term == [ESC, '\\'] || (term == "" && body == "?"))
  }

  lemma DigitLetters(c: char)
    ensures c in DIGITS <==> '0' <= c <= '9'
  {
    if '0' <= c <= '9' { assert DIGITS[c as int - '0' as int] == c; }
  }

  lemma UpperLetters(c: char)
    ensures c in UPPER <==> 'A' <= c <= 'F'
  {
    if 'A' <= c <= 'F' { assert UPPER[c as int - 'A' as int] == c; }
  }

  lemma LowerLetters(c: char)
    ensures c in LOWER <==> 'a' <= c <= 'f'
  {
    if 'a' <= c <= 'f' { assert LOWER[c as int - 'a' as int] == c; }
  }

  lemma HexLetters(c: char)
    ensures InPayload(c, false) <==> c in HEX
  {
    hide DIGITS, UPPER, LOWER;
    DigitLetters(c);
    UpperLetters(c);
    LowerLetters(c);
  }

  lemma PayloadIsHex(s: string, slash: bool)
    ensures (forall i :: 0 <= i < |s| ==> InPayload(s[i], slash)) <==> Over(s, if slash then HEX + "/" else HEX)
  {
    forall c ensures InPayload(c, slash) <==> c in if slash then HEX + "/" else HEX {
      HexLetters(c);
      hide InPayload, HEX;
    }
    hide InPayload, HEX;
  }

  lemma ReplyIsSpelled(body: string)
    ensures body == "?" || IsReplyBody(body) <==> SpelledBody(body)
  {
    hide InPayload, Over;
    if |body| > 0 { PayloadIsHex(body[1..], false); }
    if |body| > 3 { PayloadIsHex(body[4..], true); }
    var head := ReplyHead(body);
    assert head > 0 ==> ((forall i :: head <= i < |body| ==> InPayload(body[i], head == 4)) <==>
                         forall i :: 0 <= i < |body| - head ==> InPayload(body[head..][i], head == 4)) by {
      forall i | head <= i < |body| ensures body[i] == body[head..][i - head] {}
    }
    assert |body| > 3 ==> (body[..4] == "rgb:" <==> head == 4);
    assert |body| > 0 ==> (body[..1] == "#" <==> head == 1);
  }

  /** The language the matcher is compared with is the one a reader would write down. */
  lemma LanguageIsLiteral(s: string)
    ensures IsColorSequence(s) <==> exists d, body, term :: SpelledOut(s, d, body, term)
  {
    hide SpelledBody, IsReplyBody;
    if IsColorSequence(s) {
      var n :| 0 < n <= |s| - 5 && IsColorTail(s[5..][..n], s[5..][n..]);
      var body, term := s[5..][..n], s[5..][n..];
      ReplyIsSpelled(body);
      Split(s[5..], n);
      Split(s, 5);
      assert s[..5] == [ESC, ']', '1', s[3], ';'];
      assert s[3] in "012" by { assert "012"[s[3] as int - '0' as int] == s[3]; }
      assert SpelledOut(s, s[3], body, term);
    }
    if d, body, term :| SpelledOut(s, d, body, term) {
      var head := [ESC, ']', '1', d, ';'];
      ReplyIsSpelled(body);
      BodyNotEmpty(body);
      ConcatRight(head, body + term, 0);
      NoneLeft(body + term);
      ConcatLeft(body, term, |body|);
      NoneLeft(body);
      assert s[5..] == body + term;
      assert IsColorTail(s[5..][..|body|], s[5..][|body|..]);
    }
  }

  lemma BodyNotEmpty(body: string)
    requires SpelledBody(body)
    ensures body != ""
  {}

  lemma {:induction false} PayloadSpan(s: string, slash: bool)
    ensures forall i :: 0 <= i < PayloadLen(s, slash) ==> InPayload(s[i], slash)
    ensures PayloadLen(s, slash) < |s| ==> !InPayload(s[PayloadLen(s, slash)], slash)
  {
    if s != "" && InPayload(s[0], slash) { PayloadSpan(s[1..], slash); }
  }

  /** A terminator at the front of `s` is what `TermLen` measures. */
  lemma TermFound(s: string, n: nat)
    requires n <= |s| && IsTerm(s[..n])
    ensures TermLen(s) == n
  {
    assert s[0] == s[..n][0];
    if n == 2 { assert s[1] == s[..n][1]; }
  }

  lemma ReplyFound(s: string, n: nat, m: nat, slash: bool)
    requires 0 < n <= m <= |s| && (forall i :: 0 <= i < n ==> InPayload(s[i], slash))
    requires IsTerm(s[n..][..m - n])
    ensures ReplyLen(s, slash) == m
  {
    PayloadSpan(s, slash);
    TermFound(s[n..], m - n);
    assert PayloadLen(s, slash) == n;
  }

  /** A member of the language at the front of a body is never longer than what the matcher takes. */
  lemma TailFound(body: string, n: nat, m: nat)
    requires 0 < n <= m <= |body| && IsColorTail(body[..m][..n], body[..m][n..])
    ensures 0 < m <= BodyLen(body)
  {
    hide ReplyLen, TermLen;
    TakeTake(body, m, n);
    TakeDrop(body, m, n);
    var b := body[..n];
    assert b[0] == body[0];
    if b == "?" {
      if m > 1 { TermFound(body[1..], m - 1); }
    } else {
      var head := ReplyHead(b);
      assert head == ReplyHead(body) by { assert forall i :: 0 <= i < n ==> b[i] == body[i]; }
      forall i | 0 <= i < n - head ensures InPayload(body[head..][i], head == 4) {
        assert body[head..][i] == b[head + i];
      }
      DropDrop(body, head, n - head);
      ReplyFound(body[head..], n - head, m - head, head == 4);
    }
  }

  /** What the matcher takes is a member of the language. */
  lemma TailOfMatch(body: string)
    requires BodyLen(body) > 0
    ensures exists n :: 0 < n <= BodyLen(body) &&
              IsColorTail(body[..BodyLen(body)][..n], body[..BodyLen(body)][n..])
  {
    var m := BodyLen(body);
    var head := ReplyHead(body);
    var slash := head == 4;
    var n := if body[0] == '?' then 1 else head + PayloadLen(body[head..], slash);
    TakeTake(body, m, n);
    TakeDrop(body, m, n);
    if body[0] != '?' {
      DropDrop(body, head, n - head);
      PayloadSpan(body[head..], slash);
      forall i | head <= i < n ensures InPayload(body[..n][i], slash) {
        assert body[..n][i] == body[head..][i - head];
      }
      assert IsReplyBody(body[..n]);
    }
    assert IsColorTail(body[..m][..n], body[..m][n..]);
  }

  /** The matcher takes the longest member of the language at its position, and misses none. */
  lemma MatchIsLongest(s: string)
    ensures MatchLen(s) > 0 ==> IsColorSequence(s[..MatchLen(s)])
    ensures forall m :: 0 <= m <= |s| && IsColorSequence(s[..m]) ==> 0 < m <= MatchLen(s)
  {
    hide BodyLen, IsColorTail;
    var k := MatchLen(s);
    if k > 0 {
      TailOfMatch(s[5..]);
      TakeDrop(s, k, 5);
    }
    forall m | 0 <= m <= |s| && IsColorSequence(s[..m]) ensures 0 < m <= MatchLen(s) {
      TakeDrop(s, m, 5);
      var n :| 0 < n <= m - 5 && IsColorTail(s[..m][5..][..n], s[..m][5..][n..]);
      TailFound(s[5..], n, m - 5);
    }
  }

  // ---------------------------------------------------------------- prefixes of matches and fragments

  /** A payload run inside a prefix is the run of the whole, cut at the prefix. */
  lemma {:induction false} PayloadPrefix(s: string, n: nat, slash: bool)
    requires n <= |s|
    ensures PayloadLen(s[..n], slash) == if PayloadLen(s, slash) <= n then PayloadLen(s, slash) else n
  {
    if n > 0 && InPayload(s[0], slash) {
      TakeDrop(s, n, 1);
      PayloadPrefix(s[1..], n - 1, slash);
    }
  }

  lemma ReplyPrefix(s: string, n: nat, slash: bool)
    requires n <= |s|
    ensures ReplyLen(s[..n], slash) == if ReplyLen(s, slash) <= n then ReplyLen(s, slash) else 0
  {
    hide PayloadLen;
    var run := PayloadLen(s, slash);
    PayloadPrefix(s, n, slash);
    if run <= n { TakeDrop(s, n, run); }
  }

  lemma BodyPrefix(body: string, n: nat)
    requires n <= |body|
    ensures BodyLen(body[..n]) <= BodyLen(body)
    ensures BodyLen(body) <= n ==> BodyLen(body[..n]) == BodyLen(body)
  {
    hide ReplyLen;
    if n > 0 {
      var head := ReplyHead(body);
      TakeDrop(body, n, 1);
      if head <= n {
        TakeDrop(body, n, head);
        ReplyPrefix(body[head..], n - head, head == 4);
      }
    }
  }

  /** Seeing more of the stream never shortens a match, and does not change one that already fits. */
  lemma MatchPrefix(s: string, n: nat)
    requires n <= |s|
    ensures MatchLen(s[..n]) <= MatchLen(s)
    ensures MatchLen(s) <= n ==> MatchLen(s[..n]) == MatchLen(s)
  {
    hide BodyLen;
    if n >= 5 {
      TakeDrop(s, n, 5);
      BodyPrefix(s[5..], n - 5);
    }
  }

  lemma {:induction false} PendingPayloadPrefix(s: string, n: nat, slash: bool)
    requires n <= |s| && PendingPayload(s, slash)
    ensures PendingPayload(s[..n], slash)
  {
    if n > 0 && !PendingEsc(s) {
      TakeDrop(s, n, 1);
      PendingPayloadPrefix(s[1..], n - 1, slash);
    }
  }

  lemma PendingBodyPrefix(body: string, n: nat)
    requires n <= |body| && PendingBody(body)
    ensures PendingBody(body[..n])
  {
    hide PendingPayload;
    if n > 0 {
      var head := ReplyHead(body);
      TakeDrop(body, n, 1);
      if body[0] != '?' && 0 < head <= n {
        TakeDrop(body, n, head);
        PendingPayloadPrefix(body[head..], n - head, head == 4);
      } else if body[0] == 'r' {
        assert n <= 3;
      }
    }
  }

  /** The pending language is closed under non-empty prefixes. */
  lemma PendingPrefix(s: string, n: nat)
    requires 0 < n <= |s| && IsPending(s)
    ensures IsPending(s[..n])
  {
    hide PendingBody;
    if n > 5 {
      TakeDrop(s, n, 5);
      PendingBodyPrefix(s[5..], n - 5);
    }
  }

  lemma {:induction false} ReplyCutPending(s: string, n: nat, slash: bool)
    requires n <= PayloadLen(s, slash) || n < ReplyLen(s, slash)
    ensures PendingPayload(s[..n], slash)
  {
    if n > 0 && PayloadLen(s, slash) > 0 {
      TakeDrop(s, n, 1);
      DropDrop(s, 1, PayloadLen(s[1..], slash));
      if PayloadLen(s, slash) == 1 && n == 2 {
        assert s[1..][0] == ESC;
      } else {
        ReplyCutPending(s[1..], n - 1, slash);
      }
    }
  }

  lemma BodyCutPending(body: string, n: nat)
    requires n < BodyLen(body)
    ensures PendingBody(body[..n])
  {
    hide PendingPayload, ReplyLen;
    if n > 0 {
      var head := ReplyHead(body);
      TakeDrop(body, n, 1);
      if body[0] != '?' && head <= n {
        TakeDrop(body, n, head);
        ReplyCutPending(body[head..], n - head, head == 4);
      }
    }
  }

  /** Every non-empty proper prefix of a match is pending: a sequence cut by a read boundary is held back. */
  lemma MatchCutPending(s: string, n: nat)
    requires 0 < n < MatchLen(s)
    ensures IsPending(s[..n])
  {
    hide PendingBody, BodyLen;
    if n > 5 {
      TakeDrop(s, n, 5);
      BodyCutPending(s[5..], n - 5);
    }
  }

  lemma EscInsideReply(s: string, j: nat, slash: bool)
    requires j < ReplyLen(s, slash) && s[j] == ESC
    ensures j + 2 == ReplyLen(s, slash) && s[j + 1] == '\\'
  {
    hide PayloadLen;
    PayloadSpan(s, slash);
    var run := PayloadLen(s, slash);
    assert s[j] == s[run..][j - run];
    assert s[j + 1] == s[run..][j - run + 1];
  }

  lemma EscInsideBody(body: string, j: nat)
    requires j < BodyLen(body) && body[j] == ESC
    ensures j + 2 == BodyLen(body) && body[j + 1] == '\\'
  {
    hide ReplyLen;
    if body[0] == '?' {
      assert body[j] == body[1..][j - 1];
    } else {
      var head := ReplyHead(body);
      assert body[j] == body[head..][j - head];
      EscInsideReply(body[head..], j - head, head == 4);
    }
  }

  /** Inside a match, an ESC after the first character can only start its final ST. */
  lemma EscInsideMatch(s: string, j: nat)
    requires 0 < j < MatchLen(s) && s[j] == ESC
    ensures j + 2 == MatchLen(s) && s[j + 1] == '\\'
  {
    hide BodyLen;
    assert s[j] == s[5..][j - 5];
    EscInsideBody(s[5..], j - 5);
  }

  /** So a pending fragment never starts inside a match, unless it is the ESC that ends the data. */
  lemma NoPendingInsideMatch(s: string, n: nat, j: nat)
    requires 0 < j < MatchLen(s) <= n <= |s|
    ensures !IsPending(s[..n][j..])
  {
    hide MatchLen;
    TakeDrop(s, n, j);
    var u := s[..n][j..];
    assert u[0] == s[j];
    assert |u| > 1 ==> u[1] == s[j + 1];
    if IsPending(u) { EscInsideMatch(s, j); }
  }

  /** The search for a pending fragment is leftmost, and finds one that reaches the end. */
  lemma {:induction false} PendingStartLeftmost(s: string)
    ensures PendingStart(s) < |s| ==> IsPending(s[PendingStart(s)..])
    ensures forall i :: 0 <= i < PendingStart(s) ==> !IsPending(s[i..])
  {
    hide IsPending;
    NoneLeft(s);
    if s != "" && !IsPending(s) {
      PendingStartLeftmost(s[1..]);
      DropDrop(s, 1, PendingStart(s[1..]));
      forall i | 0 < i < PendingStart(s) ensures !IsPending(s[i..]) { DropDrop(s, 1, i - 1); }
    }
  }

  lemma PendingStartIs(s: string, a: nat)
    requires a <= |s| && (a < |s| ==> IsPending(s[a..]))
    requires forall i :: 0 <= i < a ==> !IsPending(s[i..])
    ensures PendingStart(s) == a
  {
    hide IsPending, PendingStart;
    PendingStartLeftmost(s);
  }

  // ---------------------------------------------------------------- cutting the stream

  /** No match that starts before `a` reaches past `a`. */
  ghost predicate NoCross(s: string, a: nat)
    requires a <= |s|
  {
    forall i :: 0 <= i < a ==> MatchLen(s[i..]) <= a - i
  }

  lemma NoCrossPrefix(s: string, a: nat, q: nat)
    requires a <= q <= |s| && NoCross(s, a)
    ensures NoCross(s[..q], a)
  {
    hide MatchLen;
    forall i | 0 <= i < a ensures MatchLen(s[..q][i..]) <= a - i {
      TakeDrop(s, q, i);
      MatchPrefix(s[i..], q - i);
    }
  }

  /** How far one round of the substitution moves, and what it keeps. */
  function StepLen(s: string): (n: nat)
    requires s != ""
    ensures 0 < n <= |s|
  {
    if MatchLen(s) > 0 then MatchLen(s) else 1
  }

  function Kept(s: string): string
    requires s != ""
  {
    if MatchLen(s) > 0 then "" else [s[0]]
  }

  lemma StripEmpty()
    ensures Strip("") == ""
  {}

  lemma StripStep(s: string)
    requires s != ""
    ensures Strip(s) == Kept(s) + Strip(s[StepLen(s)..])
  {
    hide MatchLen;
    if MatchLen(s) > 0 { NoneLeft(Strip(s[MatchLen(s)..])); }
  }

  /** Where no match crosses, stripping the two sides separately is stripping the whole. */
  lemma {:induction false} StripSplit(s: string, a: nat)
    requires a <= |s| && NoCross(s, a)
    ensures Strip(s) == Strip(s[..a]) + Strip(s[a..])
    decreases |s|
  {
    hide MatchLen, Strip;
    NoneLeft(s);
    if a == 0 {
      StripEmpty();
      NoneLeft(Strip(s));
    } else {
      MatchPrefix(s, a);
      var step := StepLen(s);
      hide NoCross;
      StripStep(s);
      StripStep(s[..a]);
      StripSplit(s[step..], a - step);
      TakeDrop(s, a, step);
      DropDrop(s, step, a - step);
      Assoc(Kept(s), Strip(s[..a][step..]), Strip(s[a..]));
    }
  }

  /** Holding back the pending fragment never cuts a sequence, whatever the rest of the stream is. */
  lemma PendingNoCross(p: string, t: string)
    ensures NoCross(p + t, PendingStart(p))
  {
    hide MatchLen, IsPending, PendingStart;
    var a := PendingStart(p);
    PendingStartLeftmost(p);
    forall i | 0 <= i < a ensures MatchLen((p + t)[i..]) <= a - i {
      ConcatLeft(p, t, i);
      var u := p[i..] + t;
      ConcatLeft(p[i..], t, |p| - i);
      NoneLeft(p[i..]);
      if MatchLen(u) > |p| - i {
        MatchCutPending(u, |p| - i);
      } else if MatchLen(u) > a - i {
        NoPendingInsideMatch(u, |p| - i, a - i);
        DropDrop(p, i, a - i);
      }
    }
  }

  /** The rest of the stream cannot make an earlier fragment pending. */
  lemma PendingStartExtends(p: string, t: string)
    ensures PendingStart(p + t) == PendingStart(p) + PendingStart(p[PendingStart(p)..] + t)
  {
    hide IsPending, PendingStart;
    var a := PendingStart(p);
    var u := p[a..] + t;
    var b := PendingStart(u);
    var s := p + t;
    PendingStartLeftmost(p);
    PendingStartLeftmost(u);
    ConcatLeft(p, t, a);
    forall i | 0 <= i < a + b ensures !IsPending(s[i..]) {
      if i < a {
        ConcatLeft(p, t, i);
        ConcatLeft(p[i..], t, |p| - i);
        NoneLeft(p[i..]);
        if IsPending(s[i..]) { PendingPrefix(s[i..], |p| - i); }
      } else {
        DropDrop(s, a, i - a);
      }
    }
    DropDrop(s, a, b);
    PendingStartIs(s, a + b);
  }

  lemma StripConcat(x: string, y: string)
    requires NoCross(x + y, |x|)
    ensures Strip(x + y) == Strip(x) + Strip(y)
  {
    hide *;
    StripSplit(x + y, |x|);
    ConcatLeft(x, y, |x|);
    NoneLeft(x);
    NoneLeft(y);
  }

  /** Filtering `x + u` when nothing crosses after `x` and nothing in `x` is pending. */
  lemma FilterConcat(x: string, u: string)
    requires NoCross(x + u, |x|) && PendingStart(x + u) == |x| + PendingStart(u)
    ensures Filter(x + u) == (Strip(x) + Filter(u).0, Filter(u).1)
  {
    hide NoCross, PendingStart, Strip;
    var b := PendingStart(u);
    ConcatRight(x, u, b);
    NoCrossPrefix(x + u, |x|, |x| + b);
    StripConcat(x, u[..b]);
    StripConcat(x, u);
  }

  /** One cut is invisible: filtering `p`, then its pending fragment and `t`, is filtering `p + t`. */
  lemma CutTransparent(p: string, t: string)
    ensures Filter(p + t) ==
            (Strip(p[..PendingStart(p)]) + Filter(p[PendingStart(p)..] + t).0, Filter(p[PendingStart(p)..] + t).1)
  {
    hide *;
    var a := PendingStart(p);
    PendingStartExtends(p, t);
    PendingNoCross(p, t);
    Split(p, a);
    Assoc(p[..a], p[a..], t);
    FilterConcat(p[..a], p[a..] + t);
  }

  lemma {:induction false} NoEscNothingToDo(s: string)
    requires ESC !in s
    ensures Strip(s) == s && PendingStart(s) == |s|
  {
    if s != "" {
      NoEscNothingToDo(s[1..]);
      Split(s, 1);
    }
  }

  /** The fast path agrees with the general one. */
  lemma FastPath(chunk: string, carry: string)
    ensures StripColorOsc(chunk, carry) == Filter(carry + chunk)
  {
    hide Strip, PendingStart;
    NoneLeft(chunk);
    if carry == "" && ESC !in chunk { NoEscNothingToDo(chunk); }
  }

  // ---------------------------------------------------------------- chunking does not matter

  /** At every read boundary of the run, the pending fragment of the stream so far is within the cap. */
  predicate CutsFit(before: string, chunks: seq<string>)
    decreases |chunks|
  {
    |chunks| <= 1 || (PendingLen(before + chunks[0]) <= CARRY_MAX && CutsFit(before + chunks[0], chunks[1..]))
  }

  lemma FilterFits(p: string)
    requires PendingLen(p) <= CARRY_MAX
    ensures Filter(p) == (Strip(p[..PendingStart(p)]), p[PendingStart(p)..])
  {
    hide Strip, PendingStart;
    NoneLeft(p);
  }

  lemma RunOfOne(t: string, carry: string)
    ensures FilterRun([t], carry) == StripColorOsc(t, carry)
  {
    hide StripColorOsc;
    NoneLeft(StripColorOsc(t, carry).0);
  }

  lemma {:induction false} RunFromPending(before: string, chunks: seq<string>)
    requires chunks != [] && PendingLen(before) <= CARRY_MAX && CutsFit(before, chunks)
    ensures Filter(before + Flatten(chunks)) ==
            (Strip(before[..PendingStart(before)]) + FilterRun(chunks, before[PendingStart(before)..]).0,
             FilterRun(chunks, before[PendingStart(before)..]).1)
    decreases |chunks|
  {
    hide PendingStart, Strip, StripColorOsc, Filter;
    var a := PendingStart(before);
    FastPath(chunks[0], before[a..]);
    CutTransparent(before, chunks[0]);
    var next := before + chunks[0];
    if |chunks| == 1 {
      assert chunks == [chunks[0]] && chunks[1..] == [];
      RunOfOne(chunks[0], before[a..]);
      NoneLeft(chunks[0]);
    } else {
      RunFromPending(next, chunks[1..]);
      Assoc(before, chunks[0], Flatten(chunks[1..]));
      FilterFits(next);
      var first := StripColorOsc(chunks[0], before[a..]);
      Assoc(Strip(before[..a]), first.0, FilterRun(chunks[1..], first.1).0);
    }
  }

  /** Any chunking whose cuts fit the cap gives the output and the carry of one read of the whole stream. */
  lemma ChunkingDoesNotMatter(chunks: seq<string>)
    requires CutsFit("", chunks)
    ensures FilterRun(chunks, "") == StripColorOsc(Flatten(chunks), "")
  {
    FastPath(Flatten(chunks), "");
    NoneLeft(Flatten(chunks));
    if chunks != [] {
      assert PendingStart("") == 0 && Strip("") == "" && ""[0..] == "" && ""[..0] == "";
      RunFromPending("", chunks);
      NoneLeft(FilterRun(chunks, "").0);
    }
  }

  // ---------------------------------------------------------------- past the cap

  /** The two fragments that are held back in vain: a reply head with no payload, then ESC. */
  predicate Hopeless(s: string) {
    |s| > 5 && FitsIntro(s) && var head := ReplyHead(s[5..]); head > 0 && s[5..][head..] == [ESC]
  }

  /** What completes a held-back body. */
  function BodyCompletion(body: string): string {
    if body == "" then "?"
    else if body == "?" then ""
    else if body[0] == '?' then "\\"
    else if body == "r" then "gb:0" + [BEL]
    else if body == "rg" then "b:0" + [BEL]
    else if body == "rgb" then ":0" + [BEL]
    else
      var payload := body[ReplyHead(body)..];
      if payload == "" then "0" + [BEL] else if payload[|payload| - 1] == ESC then "\\" else [BEL]
  }

  lemma {:induction false} PayloadCompletes(s: string, slash: bool)
    requires PendingPayload(s, slash) && s != [ESC]
    ensures var t := if s == "" then "0" + [BEL] else if s[|s| - 1] == ESC then "\\" else [BEL];
            ReplyLen(s + t, slash) == |s + t|
  {
    var t := if s == "" then "0" + [BEL] else if s[|s| - 1] == ESC then "\\" else [BEL];
    if s == "" {
      NoneLeft(t);
      assert t[1..] == [BEL] && [BEL][..1] == [BEL];
      ReplyFound(t, 1, 2, slash);
    } else if s[1..] == "" || s[1..] == [ESC] {
      assert (s + t)[1..] == s[1..] + t;
      assert s[1..] + t == [BEL] || s[1..] + t == [ESC, '\\'];
      assert (s + t)[1..][..|s + t| - 1] == (s + t)[1..];
      ReplyFound(s + t, 1, |s + t|, slash);
    } else {
      PayloadCompletes(s[1..], slash);
      ConcatLeft(s, t, 1);
      DropDrop(s + t, 1, PayloadLen(s[1..] + t, slash));
    }
  }

  lemma QueryCompletes(body: string)
    requires body == "" || (body[0] == '?' && PendingEsc(body[1..]))
    ensures var whole := body + BodyCompletion(body); BodyLen(whole) == |whole| > 0
  {
    var whole := body + BodyCompletion(body);
    assert whole[0] == '?';
    if body != "" && body != "?" {
      assert whole[1..] == body[1..] + "\\" == [ESC, '\\'];
    } else {
      assert whole == "?";
    }
  }

  lemma HeadCompletes(body: string)
    requires body == "r" || body == "rg" || body == "rgb"
    ensures var whole := body + BodyCompletion(body); BodyLen(whole) == |whole| > 0
  {
    hide ReplyLen;
    var whole := body + BodyCompletion(body);
    assert whole == "rgb:0" + [BEL];
    assert whole[4..] == "0" + [BEL] && (whole[4..][1..])[..1] == [BEL];
    ReplyFound(whole[4..], 1, 2, true);
  }

  lemma BodyCompletes(body: string)
    requires PendingBody(body) && !(ReplyHead(body) > 0 && body[ReplyHead(body)..] == [ESC])
    ensures var whole := body + BodyCompletion(body); BodyLen(whole) == |whole| > 0
  {
    var t := BodyCompletion(body);
    var whole := body + t;
    if body != "" && ReplyHead(body) > 0 {
      hide ReplyLen, PendingPayload;
      var head := ReplyHead(body);
      PayloadCompletes(body[head..], head == 4);
      ConcatLeft(body, t, head);
    } else if body == "" || body[0] == '?' {
      QueryCompletes(body);
    } else {
      HeadCompletes(body);
    }
  }

  /** Held-back text is tight: all of it can still become a sequence, but for a bare reply head and ESC. */
  lemma PendingIsTight(s: string)
    requires IsPending(s)
    ensures (exists t :: 0 < MatchLen(s + t) == |s + t|) <==> !Hopeless(s)
  {
    hide BodyLen, PendingBody, BodyCompletion;
    if Hopeless(s) {
      forall t ensures MatchLen(s + t) == 0 {
        ConcatLeft(s, t, 5);
        HopelessBody(s[5..], t);
      }
    } else if |s| > 5 {
      var t := BodyCompletion(s[5..]);
      BodyCompletes(s[5..]);
      ConcatLeft(s, t, 5);
      assert 0 < MatchLen(s + t) == |s + t|;
    } else {
      var full := [ESC, ']', '1', '0', ';', '?'];
      var t := full[|s|..];
      QueryLen();
      assert forall i :: 0 <= i < 6 ==> (s + t)[i] == if i < |s| then s[i] else full[i];
      assert (s + t)[5..] == "?";
      assert FitsIntro(s + t);
      assert 0 < MatchLen(s + t) == |s + t|;
    }
  }

  lemma QueryLen()
    ensures BodyLen("?") == 1
  {}

  lemma HopelessBody(body: string, t: string)
    requires ReplyHead(body) > 0 && body[ReplyHead(body)..] == [ESC]
    ensures BodyLen(body + t) == 0
  {
    var head := ReplyHead(body);
    ConcatLeft(body, t, head);
    assert ([ESC] + t)[0] == ESC;
    assert PayloadLen([ESC] + t, head == 4) == 0;
  }

  lemma {:induction false} PayloadNoTerm(s: string, slash: bool)
    requires PendingPayload(s, slash)
    ensures ReplyLen(s, slash) == 0
  {
    if !PendingEsc(s) {
      PayloadNoTerm(s[1..], slash);
      DropDrop(s, 1, PayloadLen(s[1..], slash));
    }
  }

  lemma LongPendingNoMatch(s: string)
    requires IsPending(s) && |s| > CARRY_MAX
    ensures MatchLen(s) == 0
  {
    hide PendingPayload, ReplyLen;
    var body := s[5..];
    PayloadNoTerm(body[ReplyHead(body)..], ReplyHead(body) == 4);
  }

  /** Two reads, cut after `p`. */
  function CutAfter(p: string, t: string): (string, string) {
    FilterRun([p, t], "")
  }

  lemma TwoReads(p: string, t: string)
    ensures CutAfter(p, t) == (Filter(p).0 + Filter(Filter(p).1 + t).0, Filter(Filter(p).1 + t).1)
  {
    hide Filter, StripColorOsc;
    FastPath(p, "");
    FastPath(t, Filter(p).1);
    NoneLeft(p);
    assert [p, t][1..] == [t];
    RunOfOne(t, Filter(p).1);
  }

  /** A whole sequence leaves no output behind. */
  lemma WholeMatchVanishes(u: string)
    requires 0 < MatchLen(u) == |u|
    ensures Filter(u).0 == ""
  {
    hide MatchLen, IsPending, PendingStart;
    NoneLeft(u);
    var a := PendingStart(u);
    PendingStartLeftmost(u);
    assert Strip(u) == Strip("") == "";
    if 0 < a < |u| { NoPendingInsideMatch(u, |u|, a); }
  }

  /** A fragment flushed past the cap and completed afterwards is not stripped, although one read strips it. */
  lemma OverflowLeaks(p: string, t: string)
    requires PendingLen(p) > CARRY_MAX
    requires MatchLen(p[PendingStart(p)..] + t) == |p[PendingStart(p)..] + t|
    ensures CutAfter(p, t) != StripColorOsc(p + t, "")
  {
    hide MatchLen, IsPending, PendingStart, StripColorOsc;
    var a := PendingStart(p);
    TwoReads(p, t);
    FastPath(p + t, "");
    NoneLeft(p + t);
    CutTransparent(p, t);
    WholeMatchVanishes(p[a..] + t);
    PendingNoCross(p, "");
    NoneLeft(p);
    StripSplit(p, a);
    PendingStartLeftmost(p);
    LongPendingNoMatch(p[a..]);
    assert |Strip(p[a..])| > 0;
  }

  function Zeros(n: nat): (z: string)
    ensures |z| == n
  {
    if n == 0 then "" else "0" + Zeros(n - 1)
  }

  /** A reply to a colour query that is still being read. */
  function LongReply(n: nat): string {
    [ESC, ']', '1', '0', ';'] + ("#" + Zeros(n))
  }

  lemma {:induction false} ZerosPayload(n: nat)
    ensures PendingPayload(Zeros(n), false)
    ensures PayloadLen(Zeros(n) + [BEL], false) == n
  {
    if n == 0 {
      assert Zeros(0) + [BEL] == [BEL];
    } else {
      ZerosPayload(n - 1);
      assert Zeros(n)[1..] == Zeros(n - 1);
      assert (Zeros(n) + [BEL])[1..] == Zeros(n - 1) + [BEL];
    }
  }

  lemma LongReplyShape(n: nat)
    requires n > 0
    ensures IsPending(LongReply(n)) && PendingLen(LongReply(n)) == n + 6
    ensures MatchLen(LongReply(n) + [BEL]) == n + 7
  {
    hide PendingPayload, PayloadLen;
    var p, z := LongReply(n), Zeros(n);
    ZerosPayload(n);
    assert p[5..] == "#" + z && ("#" + z)[1..] == z;
    assert IsPending(p);
    assert (p + [BEL])[5..] == "#" + z + [BEL] && ("#" + z + [BEL])[1..] == z + [BEL];
    assert (z + [BEL])[n..] == [BEL];
  }

  /** A colour reply cut before its BEL leaks through two reads, and not through one, from 59 digits on. */
  lemma LongReplyLeaks(n: nat)
    requires n > 0
    ensures CutAfter(LongReply(n), [BEL]) != StripColorOsc(LongReply(n) + [BEL], "") <==> n >= 59
  {
    hide MatchLen, IsPending, CutAfter, StripColorOsc, LongReply;
    var p := LongReply(n);
    LongReplyShape(n);
    NoneLeft(p);
    if n >= 59 { OverflowLeaks(p, [BEL]); } else { CutFits(p, [BEL]); }
  }

  /** Exactly when a read boundary is invisible: for every continuation, if and only if the fragment fits the cap. */
  lemma CutTransparentExactly(p: string)
    ensures (forall t :: CutAfter(p, t) == StripColorOsc(p + t, "")) <==> PendingLen(p) <= CARRY_MAX
  {
    hide MatchLen, IsPending, PendingStart, StripColorOsc, FilterRun, CutAfter;
    if PendingLen(p) <= CARRY_MAX {
      forall t ensures CutAfter(p, t) == StripColorOsc(p + t, "") { CutFits(p, t); }
    } else {
      PendingStartLeftmost(p);
      PendingIsTight(p[PendingStart(p)..]);
      LongNotHopeless(p[PendingStart(p)..]);
      var t :| 0 < MatchLen(p[PendingStart(p)..] + t) == |p[PendingStart(p)..] + t|;
      OverflowLeaks(p, t);
    }
  }

  lemma LongNotHopeless(s: string)
    requires |s| > CARRY_MAX
    ensures !Hopeless(s)
  {}

  lemma CutFits(p: string, t: string)
    requires PendingLen(p) <= CARRY_MAX
    ensures CutAfter(p, t) == StripColorOsc(p + t, "")
  {
    hide PendingStart, StripColorOsc, FilterRun;
    NoneLeft(p);
    NoneLeft(t);
    assert [p, t][1..] == [t] && [t][1..] == [];
    assert Flatten([t]) == t;
    assert Flatten([p, t]) == p + t;
    ChunkingDoesNotMatter([p, t]);
  }

  // ---------------------------------------------------------------- what is removed

  /** A stretch of text. */
  datatype Cut = Cut(from: nat, upTo: nat)

  /** A colour sequence starts the text, and no longer one does. */
  ghost predicate LongestAt(s: string, n: nat) {
    && n <= |s| && IsColorSequence(s[..n])
    && forall m :: 0 <= m <= |s| && IsColorSequence(s[..m]) ==> m <= n
  }

  /** From `start` on: the cuts are longest sequences in order, and none starts outside them. */
  ghost predicate LeftmostCuts(s: string, cuts: seq<Cut>, start: nat)
    requires start <= |s|
  {
    if cuts == [] then forall i :: start <= i < |s| ==> NoneAt(s, i)
    else
      var c := cuts[0];
      && start <= c.from < c.upTo <= |s| && LongestAt(s[c.from..], c.upTo - c.from)
      && (forall i :: start <= i < c.from ==> NoneAt(s, i))
      && LeftmostCuts(s, cuts[1..], c.upTo)
  }

  ghost predicate NoneAt(s: string, i: nat)
    requires i <= |s|
  {
    forall m :: 0 <= m <= |s| - i ==> !IsColorSequence(s[i..][..m])
  }

  /** What the cuts leave of the text from `start` on. */
  ghost function Left(s: string, cuts: seq<Cut>, start: nat): string
    requires start <= |s| && LeftmostCuts(s, cuts, start)
  {
    if cuts == [] then s[start..] else s[start..cuts[0].from] + Left(s, cuts[1..], cuts[0].upTo)
  }

  lemma MatchAt(s: string, i: nat)
    requires i <= |s|
    ensures MatchLen(s[i..]) > 0 ==> LongestAt(s[i..], MatchLen(s[i..]))
    ensures MatchLen(s[i..]) == 0 ==> NoneAt(s, i)
  {
    hide IsColorSequence, MatchLen;
    MatchIsLongest(s[i..]);
  }

  /** Stripping removes the longest sequence at the leftmost place, again and again, and keeps all else. */
  lemma {:induction false} StripIsLeftmost(s: string, start: nat) returns (cuts: seq<Cut>)
    requires start <= |s|
    ensures LeftmostCuts(s, cuts, start) && Left(s, cuts, start) == Strip(s[start..])
    decreases |s| - start
  {
    hide MatchLen, NoneAt, LongestAt, LeftmostCuts, Left;
    var rest := s[start..];
    cuts := [];
    if rest == "" {
      NothingLeft(s);
    } else {
      MatchAt(s, start);
      var n := MatchLen(rest);
      if n > 0 {
        DropDrop(s, start, n);
        cuts := StripIsLeftmost(s, start + n);
        OneCut(s, cuts, start, n);
        cuts := [Cut(start, start + n)] + cuts;
      } else {
        DropDrop(s, start, 1);
        cuts := StripIsLeftmost(s, start + 1);
        OneKept(s, cuts, start);
      }
    }
  }

  lemma NothingLeft(s: string)
    ensures LeftmostCuts(s, [], |s|) && Left(s, [], |s|) == "" == Strip("")
  {}

  lemma OneCut(s: string, cuts: seq<Cut>, start: nat, n: nat)
    requires start + n <= |s| && n > 0 && LongestAt(s[start..], n) && LeftmostCuts(s, cuts, start + n)
    ensures var more := [Cut(start, start + n)] + cuts;
            LeftmostCuts(s, more, start) && Left(s, more, start) == Left(s, cuts, start + n)
  {
    hide NoneAt, LongestAt;
    var more := [Cut(start, start + n)] + cuts;
    assert more[0] == Cut(start, start + n) && more[1..] == cuts;
    assert LeftmostCuts(s, more, start);
    hide LeftmostCuts;
    LeftUnfolds(s, more, start);
    NoneLeft(Left(s, cuts, start + n));
    assert s[start..start] == "";
  }

  lemma LeftUnfolds(s: string, cuts: seq<Cut>, start: nat)
    requires start <= |s| && LeftmostCuts(s, cuts, start) && cuts != []
    ensures var c := cuts[0];
            && start <= c.from < c.upTo <= |s| && LeftmostCuts(s, cuts[1..], c.upTo)
            && Left(s, cuts, start) == s[start..c.from] + Left(s, cuts[1..], c.upTo)
  {
    hide NoneAt, LongestAt;
  }

  lemma OneKept(s: string, cuts: seq<Cut>, start: nat)
    requires start < |s| && NoneAt(s, start) && LeftmostCuts(s, cuts, start + 1)
    ensures LeftmostCuts(s, cuts, start) && Left(s, cuts, start) == [s[start]] + Left(s, cuts, start + 1)
  {
    hide NoneAt, LongestAt;
    if cuts == [] {
      assert s[start..] == [s[start]] + s[start + 1..];
    } else {
      var from, tail := cuts[0].from, Left(s, cuts[1..], cuts[0].upTo);
      assert s[start..from] == [s[start]] + s[start + 1..from];
      Assoc([s[start]], s[start + 1..from], tail);
    }
  }

  /** What a read puts out, and what is left of its carry, is the stripped data, past the cap too. */
  lemma ReadStrips(data: string)
    ensures Strip(data) == Filter(data).0 + Strip(Filter(data).1)
  {
    hide MatchLen, IsPending, PendingStart;
    var a := PendingStart(data);
    PendingNoCross(data, "");
    NoneLeft(data);
    NoneLeft(Strip(data));
    StripSplit(data, a);
    assert Strip("") == "";
  }

  // ---------------------------------------------------------------- pass-through

  /** No complete colour sequence anywhere in `s`. */
  predicate NoSequence(s: string) {
    MatchLen(s) == 0 && (s == "" || NoSequence(s[1..]))
  }

  lemma {:induction false} NoSequencePrefix(s: string, n: nat)
    requires n <= |s| && NoSequence(s)
    ensures NoSequence(s[..n])
  {
    hide MatchLen;
    MatchPrefix(s, n);
    if n > 0 {
      TakeDrop(s, n, 1);
      NoSequencePrefix(s[1..], n - 1);
    }
  }

  lemma {:induction false} NoSequenceSuffix(s: string, n: nat)
    requires n <= |s| && NoSequence(s)
    ensures NoSequence(s[n..])
  {
    hide MatchLen;
    NoneLeft(s);
    if n > 0 {
      NoSequenceSuffix(s[1..], n - 1);
      DropDrop(s, 1, n - 1);
    }
  }

  /** Stripping changes a text exactly when it holds a complete sequence, and then shortens it. */
  lemma {:induction false} StripIdentity(s: string)
    ensures NoSequence(s) ==> Strip(s) == s
    ensures !NoSequence(s) ==> |Strip(s)| < |s|
  {
    hide MatchLen;
    if s != "" {
      StripIdentity(s[StepLen(s)..]);
      Split(s, 1);
    } else {
      assert MatchLen("") <= |""|;
    }
  }

  lemma FilterKeeps(data: string)
    requires NoSequence(data)
    ensures Filter(data).0 + Filter(data).1 == data
  {
    hide Strip, PendingStart, NoSequence;
    var a := PendingStart(data);
    NoSequencePrefix(data, a);
    StripIdentity(data[..a]);
    StripIdentity(data);
    Split(data, a);
    NoneLeft(data);
  }

  lemma {:induction false} PassThroughFrom(chunks: seq<string>, carry: string)
    requires NoSequence(carry + Flatten(chunks))
    ensures FilterRun(chunks, carry).0 + FilterRun(chunks, carry).1 == carry + Flatten(chunks)
    decreases |chunks|
  {
    hide Filter, StripColorOsc, NoSequence;
    NoneLeft(carry);
    if chunks != [] {
      var data := carry + chunks[0];
      var tail := Flatten(chunks[1..]);
      FastPath(chunks[0], carry);
      Assoc(carry, chunks[0], tail);
      ConcatRight(data, tail, 0);
      NoneLeft(tail);
      NoSequencePrefix(data + tail, |data|);
      FilterKeeps(data);
      var first := Filter(data);
      Assoc(first.0, first.1, tail);
      ConcatRight(first.0, first.1 + tail, 0);
      NoneLeft(first.1 + tail);
      NoSequenceSuffix(data + tail, |first.0|);
      PassThroughFrom(chunks[1..], first.1);
      var rest := FilterRun(chunks[1..], first.1);
      Assoc(first.0, rest.0, rest.1);
    }
  }

  /** Whatever the chunking, and past the cap too: a stream with no complete colour sequence comes out whole. */
  lemma PassThrough(chunks: seq<string>)
    requires NoSequence(Flatten(chunks))
    ensures FilterRun(chunks, "").0 + FilterRun(chunks, "").1 == Flatten(chunks)
  {
    NoneLeft(Flatten(chunks));
    PassThroughFrom(chunks, "");
  }

  /** No run ever holds back more than the cap, so a stray ESC cannot wedge the stream. */
  lemma {:induction false} CarryBounded(chunks: seq<string>, carry: string)
    requires |carry| <= CARRY_MAX
    ensures |FilterRun(chunks, carry).1| <= CARRY_MAX
    decreases |chunks|
  {
    hide Strip, PendingStart;
    if chunks != [] { CarryBounded(chunks[1..], StripColorOsc(chunks[0], carry).1); }
  }
}
