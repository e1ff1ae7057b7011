/**
 Shell-style pattern matching of file names. The matcher remembers only the last `*` it passed and
 goes back to that one alone. Its result is compared with the declarative meaning of a pattern:
 the string can be cut into one piece per token so that every token accepts its piece.
 Strings end at their terminator, which reads as the NUL character.
 */
module Glob {
  import opened Wrappers

  type CString = s: string | '\0' !in s witness []

  datatype Span = Span(lo: char, hi: char)

  datatype Token =
    | AnyChar
    | Star
    | Class(inverted: bool, spans: seq<Span>)
    | Literal(c: char)

  /** Reading a string through a pointer; the terminator is NUL. */
  function At(s: string, i: nat): char {
    if i < |s| then s[i] else '\0'
  }

  // ----- patterns -----

  /** One span: a character, or two with a dash between them unless the second is the closing bracket. */
  function SpanAt(pat: CString, i: nat): (r: Option<(Span, nat)>)
    ensures r.Some? ==> i < r.value.1 <= |pat|
  {
    if i >= |pat| then None
    else if At(pat, i + 1) == '-' && At(pat, i + 2) != ']' then
      if i + 2 >= |pat| then None else Some((Span(pat[i], pat[i + 2]), i + 3))
    else Some((Span(pat[i], pat[i]), i + 1))
  }

  datatype Spans = Malformed | WellFormed(spans: seq<Span>, next: nat)

  /**
   The spans of a class up to its closing bracket, from position i on. The first character of a span
   is taken whatever it is, so a class may begin with a bracket; a class without an end is malformed.
   */
  function SpansFrom(pat: CString, i: nat): (r: Spans)
    ensures r.WellFormed? ==> i < r.next <= |pat|
    decreases |pat| - i
  {
    match SpanAt(pat, i)
    case None => Malformed
    case Some((span, next)) =>
      if At(pat, next) == ']' then WellFormed([span], next + 1)
      else match SpansFrom(pat, next)
        case Malformed => Malformed
        case WellFormed(spans, end) => WellFormed([span] + spans, end)
  }

  /** The token at position i and the position after it; a malformed class is a literal bracket. */
  function TokenAt(pat: CString, i: nat): (r: (Token, nat))
    requires i < |pat|
    ensures i < r.1 <= |pat|
  {
    match pat[i]
    case '?' => (AnyChar, i + 1)
    case '*' => (Star, i + 1)
    case '[' =>
      var inverted := At(pat, i + 1) == '!';
      (match SpansFrom(pat, if inverted then i + 2 else i + 1)
       case Malformed => (Literal('['), i + 1)
       case WellFormed(spans, next) => (Class(inverted, spans), next))
    case '\\' => if i + 1 < |pat| then (Literal(pat[i + 1]), i + 2) else (Literal('\\'), i + 1)
    case c => (Literal(c), i + 1)
  }

  /** The tokens of a pattern from position i on; a backslash at the very end stands for the end. */
  function TokensFrom(pat: CString, i: nat): seq<Token>
    decreases |pat| - i
  {
    if AtEnd(pat, i) then [] else
    var (token, next) := TokenAt(pat, i);
    [token] + TokensFrom(pat, next)
  }

  predicate AtEnd(pat: CString, i: nat) {
    i >= |pat| || (pat[i] == '\\' && i + 1 == |pat|)
  }

  function Tokens(pat: CString): seq<Token> {
    TokensFrom(pat, 0)
  }

  // ----- meaning -----

  predicate InSpans(spans: seq<Span>, c: char) {
    exists i :: 0 <= i < |spans| && spans[i].lo <= c <= spans[i].hi
  }

  /** What a token accepts as one character. */
  predicate AcceptsChar(token: Token, c: char) {
    match token
    case AnyChar => true
    case Star => false
    case Class(inverted, spans) => InSpans(spans, c) != inverted
    case Literal(l) => c == l
  }

  predicate AcceptsPiece(token: Token, piece: string) {
    token.Star? || (|piece| == 1 && AcceptsChar(token, piece[0]))
  }

  function Concat(pieces: seq<string>): string {
    if pieces == [] then [] else pieces[0] + Concat(pieces[1..])
  }

  ghost predicate Cuts(tokens: seq<Token>, pieces: seq<string>, s: string) {
    && |pieces| == |tokens| && Concat(pieces) == s
    && forall i :: 0 <= i < |tokens| ==> AcceptsPiece(tokens[i], pieces[i])
  }

  /** The declarative meaning of a pattern. */
  ghost predicate Means(tokens: seq<Token>, s: string) {
    exists pieces :: Cuts(tokens, pieces, s)
  }

  // ----- the meaning, token by token -----

  ghost predicate Matches(tokens: seq<Token>, s: string) {
    if tokens == [] then s == []
    else if tokens[0].Star? then exists k :: 0 <= k <= |s| && Matches(tokens[1..], s[k..])
    else s != [] && AcceptsChar(tokens[0], s[0]) && Matches(tokens[1..], s[1..])
  }

  lemma {:induction false} MatchesCuts(tokens: seq<Token>, s: string) returns (pieces: seq<string>)
    requires Matches(tokens, s)
    ensures Cuts(tokens, pieces, s)
  {
    if tokens == [] {
      pieces := [];
    } else {
      var k: nat := 1;
      if tokens[0].Star? {
        k :| 0 <= k <= |s| && Matches(tokens[1..], s[k..]);
      }
      var rest := MatchesCuts(tokens[1..], s[k..]);
      pieces := [s[..k]] + rest;
      assert pieces[1..] == rest;
      assert forall i | 1 <= i < |tokens| :: tokens[i] == tokens[1..][i - 1] && pieces[i] == rest[i - 1];
    }
  }

  lemma {:induction false} CutsMatch(tokens: seq<Token>, pieces: seq<string>, s: string)
    requires Cuts(tokens, pieces, s)
    ensures Matches(tokens, s)
  {
    if tokens != [] {
      var k := |pieces[0]|;
      assert s[k..] == Concat(pieces[1..]) && s[..k] == pieces[0];
      assert AcceptsPiece(tokens[0], pieces[0]);
      CutsMatch(tokens[1..], pieces[1..], s[k..]);
    }
  }

  lemma MatchesIffMeans(tokens: seq<Token>, s: string)
    ensures Matches(tokens, s) <==> Means(tokens, s)
  {
    if Matches(tokens, s) {
      var pieces := MatchesCuts(tokens, s);
    }
    if pieces :| Cuts(tokens, pieces, s) {
      CutsMatch(tokens, pieces, s);
    }
  }

  // ----- the matcher -----

  /** The rest of the pattern from p on accepts the rest of the string from q on. */
  ghost predicate Accepts(pat: CString, p: nat, str: CString, q: nat) {
    q <= |str| && Matches(TokensFrom(pat, p), str[q..])
  }

  lemma AcceptsAtEnd(pat: CString, p: nat, str: CString, q: nat)
    requires AtEnd(pat, p) && q <= |str|
    ensures Accepts(pat, p, str, q) <==> q == |str|
  {
  }

  lemma AcceptsOne(pat: CString, p: nat, str: CString, q: nat)
    requires !AtEnd(pat, p) && !TokenAt(pat, p).0.Star?
    ensures Accepts(pat, p, str, q)
       <==> q < |str| && AcceptsChar(TokenAt(pat, p).0, str[q]) && Accepts(pat, TokenAt(pat, p).1, str, q + 1)
  {
    var rest := TokensFrom(pat, TokenAt(pat, p).1);
    assert TokensFrom(pat, p)[1..] == rest;
    if q < |str| {
      assert str[q..][1..] == str[q + 1..];
    }
  }

  lemma AcceptsStar(pat: CString, p: nat, rest: nat, str: CString, q: nat)
    requires p < |pat| && pat[p] == '*' && rest == p + 1 && q <= |str|
    ensures Accepts(pat, p, str, q) <==> exists k :: q <= k && Accepts(pat, rest, str, k)
  {
    var tokens := TokensFrom(pat, rest);
    assert TokensFrom(pat, p)[1..] == tokens && TokensFrom(pat, p)[0] == Star;
    if Accepts(pat, p, str, q) {
      var k :| 0 <= k <= |str[q..]| && Matches(tokens, str[q..][k..]);
      assert str[q..][k..] == str[q + k..];
      assert Accepts(pat, rest, str, q + k);
    }
    if k :| q <= k && Accepts(pat, rest, str, k) {
      assert str[q..][k - q..] == str[k..];
    }
  }

  lemma InSpansOneMore(spans: seq<Span>, span: Span, c: char)
    ensures InSpans(spans + [span], c) <==> InSpans(spans, c) || span.lo <= c <= span.hi
  {
    assert (spans + [span])[|spans|] == span;
    assert forall i | 0 <= i < |spans| :: (spans + [span])[i] == spans[i];
  }

  /** The spans of the class that starts at `start`, given those already seen before `next`. */
  ghost predicate SpansSeen(pat: CString, start: nat, seen: seq<Span>, next: nat) {
    match SpansFrom(pat, next)
    case Malformed => SpansFrom(pat, start).Malformed?
    case WellFormed(spans, end) => SpansFrom(pat, start) == WellFormed(seen + spans, end)
  }

  lemma SpansSeenOneMore(pat: CString, start: nat, seen: seq<Span>, i: nat)
    requires SpansSeen(pat, start, seen, i) && SpanAt(pat, i).Some?
    ensures var (span, next) := SpanAt(pat, i).value;
      if At(pat, next) == ']' then SpansFrom(pat, start) == WellFormed(seen + [span], next + 1)
      else SpansSeen(pat, start, seen + [span], next)
  {
    var (span, next) := SpanAt(pat, i).value;
    if At(pat, next) != ']' && SpansFrom(pat, next).WellFormed? {
      var spans := SpansFrom(pat, next).spans;
      assert seen + ([span] + spans) == seen + [span] + spans;
    }
  }

  /** The loop over the spans of a class. */
  method ScanClass(pat: CString, start: nat, c: char) returns (malformed: bool, found: bool, next: nat)
    ensures malformed <==> SpansFrom(pat, start).Malformed?
    ensures !malformed ==> next == SpansFrom(pat, start).next && (found <==> InSpans(SpansFrom(pat, start).spans, c))
  {
    found, next := false, start;
    ghost var seen: seq<Span> := [];
    while true
      invariant found <==> InSpans(seen, c)
      invariant SpansSeen(pat, start, seen, next)
      decreases |pat| - next
    {
      ghost var i := next;
      var a := At(pat, next);
      next := next + 1;
      var b := a;
      if a == '\0' {
        return true, found, next;
      }
      if At(pat, next) == '-' && At(pat, next + 1) != ']' {
        b := At(pat, next + 1);
        if b == '\0' {
          return true, found, next;
        }
        next := next + 2;
      }
      assert SpanAt(pat, i) == Some((Span(a, b), next));
      SpansSeenOneMore(pat, start, seen, i);
      InSpansOneMore(seen, Span(a, b), c);
      found := found || (a <= c && c <= b);
      seen := seen + [Span(a, b)];
      if At(pat, next) == ']' {
        return false, found, next + 1;
      }
    }
  }

  /** The current attempt stands for every later one from the same `*` at the same distance. */
  ghost predicate Slides(pat: CString, p: nat, str: CString, q: nat, backPat: nat, backStr: nat) {
    forall k {:trigger Accepts(pat, backPat, str, k)} :: backStr <= k && Accepts(pat, backPat, str, k) ==>
      k + (q - backStr) <= |str| && Accepts(pat, p, str, k + (q - backStr))
  }

  /** What is left to try: the current attempt, or a later restart from the last `*`. */
  ghost predicate Hopes(pat: CString, p: nat, str: CString, q: nat, back: bool, backPat: nat, backStr: nat) {
    Accepts(pat, p, str, q) || (back && exists k :: backStr < k && Accepts(pat, backPat, str, k))
  }

  /** Passing a new `*` makes the restarts from the one before superfluous. */
  lemma NewStar(pat: CString, p: nat, str: CString, q: nat, back: bool, backPat: nat, backStr: nat, rest: nat)
    requires p < |pat| && pat[p] == '*' && q <= |str| && backStr <= q && rest == p + 1
    requires back ==> Slides(pat, p, str, q, backPat, backStr)
    ensures Hopes(pat, p, str, q, back, backPat, backStr) <==> Hopes(pat, rest, str, q, true, rest, q)
  {
    AcceptsStar(pat, p, rest, str, q);
    if back {
      if k :| backStr < k && Accepts(pat, backPat, str, k) {
        var k' := k + (q - backStr);
        AcceptsStar(pat, p, rest, str, k');
        var k'' :| k' <= k'' && Accepts(pat, rest, str, k'');
        assert q < k'';
      }
    }
  }

  /** Consuming one character with one token. */
  lemma OneToken(pat: CString, p: nat, str: CString, q: nat, back: bool, backPat: nat, backStr: nat)
    requires !AtEnd(pat, p) && !TokenAt(pat, p).0.Star? && backStr <= q < |str|
    requires AcceptsChar(TokenAt(pat, p).0, str[q])
    requires back ==> Slides(pat, p, str, q, backPat, backStr)
    ensures var next := TokenAt(pat, p).1;
      && (Hopes(pat, p, str, q, back, backPat, backStr) <==> Hopes(pat, next, str, q + 1, back, backPat, backStr))
      && (back ==> Slides(pat, next, str, q + 1, backPat, backStr))
  {
    var next := TokenAt(pat, p).1;
    AcceptsOne(pat, p, str, q);
    if back {
      forall k {:trigger Accepts(pat, backPat, str, k)} | backStr <= k && Accepts(pat, backPat, str, k)
        ensures k + (q + 1 - backStr) <= |str| && Accepts(pat, next, str, k + (q + 1 - backStr))
      {
        AcceptsOne(pat, p, str, k + (q - backStr));
      }
    }
  }

  /** A mismatch: the restart one character further on is all that is left, and at the end not even that. */
  lemma Mismatch(pat: CString, p: nat, str: CString, q: nat, back: bool, backPat: nat, backStr: nat)
    requires backStr <= q <= |str| && !Accepts(pat, p, str, q)
    requires back ==> Slides(pat, p, str, q, backPat, backStr)
    ensures !back || q == |str| ==> !Hopes(pat, p, str, q, back, backPat, backStr)
    ensures back && q < |str| ==>
      (Hopes(pat, p, str, q, back, backPat, backStr)
       <==> Hopes(pat, backPat, str, backStr + 1, back, backPat, backStr + 1))
  {
  }

  /**
   The matcher. It keeps one restart point, the last `*` and the string position to try next from
   it, and never needs more.
   */
  method GlobMatch(pat: CString, str: CString) returns (result: bool)
    ensures result <==> Means(Tokens(pat), str)
  {
    MatchesIffMeans(Tokens(pat), str);
    assert str[0..] == str;
    var p: nat, q: nat, back, backPat: nat, backStr: nat := 0, 0, false, 0, 0;
    while true
      invariant p <= |pat| && backStr <= q <= |str| && (back ==> backPat <= p)
      invariant Means(Tokens(pat), str) <==> Hopes(pat, p, str, q, back, backPat, backStr)
      invariant back ==> Slides(pat, p, str, q, backPat, backStr)
      decreases |pat| + 1 - (if back then backPat + 1 else 0), |str| - backStr, |pat| - p
    {
      var c, d := At(str, q), At(pat, p);
      var literal, mismatch, next := false, false, p + 1;
      if d == '?' {
        if c == '\0' {
          AcceptsOne(pat, p, str, q);
          Mismatch(pat, p, str, q, back, backPat, backStr);
          return false;
        }
      } else if d == '*' {
        NewStar(pat, p, str, q, back, backPat, backStr, next);
        if At(pat, next) == '\0' {
          AcceptsAtEnd(pat, next, str, |str|);
          return true;
        }
        back, backPat, backStr := true, next, q;
        p := next;
        continue;
      } else if d == '[' {
        if c == '\0' {
          AcceptsOne(pat, p, str, q);
          Mismatch(pat, p, str, q, back, backPat, backStr);
          return false;
        }
        var inverted := At(pat, next) == '!';
        var malformed, found, end := ScanClass(pat, if inverted then next + 1 else next, c);
        if malformed {
          literal := true;
        } else if found == inverted {
          mismatch := true;
        } else {
          next := end;
        }
      } else {
        if d == '\\' {
          d, next := At(pat, next), next + 1;
        }
        literal := true;
      }
      if literal {
        if c == d {
          if d == '\0' {
            AcceptsAtEnd(pat, p, str, q);
            return true;
          }
        } else {
          mismatch := true;
        }
      }
      if mismatch {
        assert !Accepts(pat, p, str, q) by {
          if AtEnd(pat, p) {
            AcceptsAtEnd(pat, p, str, q);
          } else {
            AcceptsOne(pat, p, str, q);
          }
        }
        Mismatch(pat, p, str, q, back, backPat, backStr);
        if c == '\0' || !back {
          return false;
        }
        backStr := backStr + 1;
        p, q := backPat, backStr;
      } else {
        OneToken(pat, p, str, q, back, backPat, backStr);
        p, q := next, q + 1;
      }
    }
  }

  // ----- what the patterns of the database amount to -----

  /** A pattern character that stands for itself. */
  predicate Plain(c: char) {
    c !in "?*[\\"
  }

  /** A plain character accepts itself, and the rest goes on behind it. */
  lemma PlainChar(plain: CString, star: string, str: CString, p: nat, q: nat)
    requires (forall c <- plain :: Plain(c)) && (star == "" || star == "*") && p < |plain| && q <= |str|
    ensures Accepts(plain + star, p, str, q)
       <==> q < |str| && str[q] == plain[p] && Accepts(plain + star, p + 1, str, q + 1)
  {
    var pat: CString := plain + star;
    assert pat[p] == plain[p] && Plain(plain[p]);
    AcceptsOne(pat, p, str, q);
    hide Accepts;
  }

  lemma PlainEnd(plain: CString, star: string, str: CString, q: nat)
    requires (star == "" || star == "*") && q <= |str|
    ensures Accepts(plain + star, |plain|, str, q) <==> (star == "*" || q == |str|)
  {
    var pat: CString := plain + star;
    if star == "" {
      AcceptsAtEnd(pat, |plain|, str, q);
    } else {
      AcceptsStar(pat, |plain|, |plain| + 1, str, q);
      AcceptsAtEnd(pat, |plain| + 1, str, |str|);
    }
  }

  lemma {:induction false} PlainThenStar(plain: CString, star: string, str: CString, p: nat, q: nat)
    requires (forall c <- plain :: Plain(c)) && (star == "" || star == "*") && p <= |plain| && q <= |str|
    ensures Accepts(plain + star, p, str, q)
       <==> if star == "" then plain[p..] == str[q..] else plain[p..] <= str[q..]
    decreases |plain| - p
  {
    hide Accepts, Plain;
    if p == |plain| {
      PlainEnd(plain, star, str, q);
    } else {
      PlainChar(plain, star, str, p, q);
      if q < |str| {
        PlainThenStar(plain, star, str, p + 1, q + 1);
        assert plain[p..] == [plain[p]] + plain[p + 1..] && str[q..] == [str[q]] + str[q + 1..];
      }
    }
  }

  /**
   A name without special characters matches itself only; followed by `*` it matches every string
   it is a prefix of, which is how the entries of one user are listed.
   */
  lemma PlainPatterns(plain: CString, str: CString)
    requires forall c <- plain :: Plain(c)
    ensures Means(Tokens(plain), str) <==> str == plain
    ensures '\0' !in plain + "*" && (Means(Tokens(plain + "*"), str) <==> plain <= str)
  {
    PlainThenStar(plain, "", str, 0, 0);
    PlainThenStar(plain, "*", str, 0, 0);
    assert plain + "" == plain && plain[0..] == plain && str[0..] == str;
    MatchesIffMeans(Tokens(plain), str);
    MatchesIffMeans(Tokens(plain + "*"), str);
  }
}
