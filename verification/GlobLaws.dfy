/**
 What patterns mean, on their text: one law for each way in which a pattern can begin, with any rest behind
 it. Together they decide every pattern on every string, without tokens.
 */
module GlobLaws {
  import opened Wrappers
  import opened Glob

  /** The rest of a pattern is read as if it stood alone. */
  lemma SpanShifts(u: CString, r: CString, i: nat)
    requires '\0' !in u + r && i <= |r|
    ensures SpanAt(u + r, |u| + i)
         == match SpanAt(r, i) case None => None case Some((span, next)) => Some((span, |u| + next))
  {
    AtShifts(u, r, i);
    AtShifts(u, r, i + 1);
    AtShifts(u, r, i + 2);
  }

  lemma AtShifts(u: string, r: string, i: nat)
    ensures At(u + r, |u| + i) == At(r, i)
  {
  }

  lemma {:induction false} SpansShift(u: CString, r: CString, i: nat)
    requires '\0' !in u + r && i <= |r|
    ensures SpansFrom(u + r, |u| + i)
         == match SpansFrom(r, i) case Malformed => Malformed case WellFormed(spans, n) => WellFormed(spans, |u| + n)
    decreases |r| - i
  {
    SpanShifts(u, r, i);
    hide SpanAt;
    if SpanAt(r, i).Some? {
      var next := SpanAt(r, i).value.1;
      AtShifts(u, r, next);
      SpansShift(u, r, next);
    }
  }

  lemma TokenShifts(u: CString, r: CString, i: nat)
    requires '\0' !in u + r && i < |r|
    ensures TokenAt(u + r, |u| + i) == (TokenAt(r, i).0, |u| + TokenAt(r, i).1)
  {
    AtShifts(u, r, i);
    AtShifts(u, r, i + 1);
    if r[i] == '[' {
      var start := if At(r, i + 1) == '!' then i + 2 else i + 1;
      SpansShift(u, r, start);
    }
    hide SpansFrom;
  }

  lemma {:induction false} TokensShift(u: CString, r: CString, i: nat)
    requires '\0' !in u + r && i <= |r|
    ensures TokensFrom(u + r, |u| + i) == TokensFrom(r, i)
    decreases |r| - i
  {
    if !AtEnd(r, i) {
      TokenShifts(u, r, i);
      hide TokenAt;
      TokensShift(u, r, TokenAt(r, i).1);
    }
  }

  /** A pattern that begins with a piece of text that is one token. */
  lemma BeginsWith(u: CString, r: CString, token: Token)
    requires u != "" && '\0' !in u + r && !AtEnd(u + r, 0) && TokenAt(u + r, 0) == (token, |u|)
    ensures Tokens(u + r) == [token] + Tokens(r)
  {
    TokensShift(u, r, 0);
    hide TokenAt;
  }

  /** Such a token accepts the first character of the string, and the rest of the pattern the rest of it. */
  lemma OneThenRest(u: CString, r: CString, token: Token, s: string)
    requires u != "" && '\0' !in u + r && !AtEnd(u + r, 0) && TokenAt(u + r, 0) == (token, |u|) && !token.Star?
    ensures Means(Tokens(u + r), s) <==> s != "" && AcceptsChar(token, s[0]) && Means(Tokens(r), s[1..])
  {
    BeginsWith(u, r, token);
    hide TokenAt, Tokens, Means, AcceptsChar;
    MatchesIffMeans(Tokens(u + r), s);
    assert Tokens(u + r)[1..] == Tokens(r);
    if s != "" {
      MatchesIffMeans(Tokens(r), s[1..]);
    }
  }

  // ----- the laws -----

  /** The empty pattern, or a lone backslash, accepts the empty string only. */
  lemma EmptyLaw(pat: CString, s: string)
    requires pat == "" || pat == "\\"
    ensures Means(Tokens(pat), s) <==> s == ""
  {
    MatchesIffMeans(Tokens(pat), s);
  }

  /** A plain character stands for itself. */
  lemma PlainLaw(c: char, r: CString, s: string)
    requires Plain(c) && c != '\0'
    ensures '\0' !in [c] + r
    ensures Means(Tokens([c] + r), s) <==> s != "" && s[0] == c && Means(Tokens(r), s[1..])
  {
    OneThenRest([c], r, Literal(c), s);
  }

  /** A question mark stands for any one character. */
  lemma QuestionLaw(r: CString, s: string)
    ensures '\0' !in "?" + r
    ensures Means(Tokens("?" + r), s) <==> s != "" && Means(Tokens(r), s[1..])
  {
    OneThenRest("?", r, AnyChar, s);
  }

  /** A star stands for any piece of the string. */
  lemma StarLaw(r: CString, s: string)
    ensures '\0' !in "*" + r
    ensures Means(Tokens("*" + r), s) <==> exists k :: 0 <= k <= |s| && Means(Tokens(r), s[k..])
  {
    BeginsWith("*", r, Star);
    hide Tokens, Means;
    MatchesIffMeans(Tokens("*" + r), s);
    assert Tokens("*" + r)[1..] == Tokens(r);
    forall k | 0 <= k <= |s|
      ensures Matches(Tokens(r), s[k..]) <==> Means(Tokens(r), s[k..])
    {
      MatchesIffMeans(Tokens(r), s[k..]);
    }
  }

  /** A backslash takes the special meaning from any character. */
  lemma EscapeLaw(c: char, r: CString, s: string)
    requires c != '\0'
    ensures '\0' !in "\\" + [c] + r
    ensures Means(Tokens("\\" + [c] + r), s) <==> s != "" && s[0] == c && Means(Tokens(r), s[1..])
  {
    OneThenRest("\\" + [c], r, Literal(c), s);
  }

  // ----- classes -----

  /** A character is listed between the brackets, by itself or in a range. */
  predicate Listed(body: string, c: char) {
    if body == "" then false
    else if |body| >= 3 && body[1] == '-' then body[0] <= c <= body[2] || Listed(body[3..], c)
    else c == body[0] || Listed(body[1..], c)
  }

  /** The first span of what is between the brackets. */
  function FirstSpan(body: string): (r: (Span, nat))
    requires body != ""
    ensures 1 <= r.1 <= |body|
  {
    if |body| >= 3 && body[1] == '-' then (Span(body[0], body[2]), 3) else (Span(body[0], body[0]), 1)
  }

  /** The text between the brackets of a class stands at position i, and its end behind it. */
  predicate BodyAt(pat: CString, i: nat, body: string) {
    i + |body| < |pat| && pat[i..i + |body|] == body && pat[i + |body|] == ']' && body != "" && ']' !in body[1..]
  }

  lemma BodySpan(pat: CString, i: nat, body: string)
    requires BodyAt(pat, i, body)
    ensures var (span, next) := FirstSpan(body);
      && SpanAt(pat, i) == Some((span, i + next))
      && (if next == |body| then At(pat, i + next) == ']'
          else At(pat, i + next) != ']' && BodyAt(pat, i + next, body[next..]))
  {
    assert forall j | 0 <= j < |body| :: body[j] == pat[i + j];
    assert forall j | 1 <= j < |body| :: body[j] == body[1..][j - 1];
    var next := FirstSpan(body).1;
    if next < |body| {
      assert pat[i + next..i + |body|] == body[next..];
      assert body[next..][1..] == body[1..][next..];
    }
  }

  lemma ListedFirst(body: string, c: char)
    requires body != ""
    ensures var (span, next) := FirstSpan(body);
      Listed(body, c) <==> span.lo <= c <= span.hi || Listed(body[next..], c)
    ensures !Listed("", c)
  {
  }

  /** The spans from a position on cover what is listed in a text. */
  predicate Cover(pat: CString, i: nat, end: nat, body: string, c: char) {
    var spans := SpansFrom(pat, i);
    spans.WellFormed? && spans.next == end && (InSpans(spans.spans, c) <==> Listed(body, c))
  }

  lemma {:induction false} BodySpans(pat: CString, i: nat, body: string, c: char)
    requires BodyAt(pat, i, body)
    ensures Cover(pat, i, i + |body| + 1, body, c)
    decreases |body|
  {
    var (span, next) := FirstSpan(body);
    BodySpan(pat, i, body);
    ListedFirst(body, c);
    if next < |body| {
      BodySpans(pat, i + next, body[next..], c);
      InSpansFirst(span, SpansFrom(pat, i + next).spans, c);
    } else {
      InSpansFirst(span, [], c);
      assert body[next..] == "" && [span] + [] == [span];
    }
    hide SpanAt, FirstSpan, At, Listed, InSpans, BodyAt;
  }

  lemma InSpansFirst(span: Span, spans: seq<Span>, c: char)
    ensures InSpans([span] + spans, c) <==> span.lo <= c <= span.hi || InSpans(spans, c)
    ensures !InSpans([], c)
  {
    var all := [span] + spans;
    assert all[0] == span;
    assert forall i | 0 <= i < |spans| :: all[i + 1] == spans[i];
  }

  /** The text of a class. */
  function ClassText(inverted: bool, body: string): string {
    (if inverted then "[!" else "[") + body + "]"
  }

  /** Something between the brackets, up to the first closing bracket that is not its first character. */
  predicate ClassBody(inverted: bool, body: string) {
    body != "" && ']' !in body[1..] && '\0' !in body && (inverted || body[0] != '!')
  }

  lemma ClassToken(inverted: bool, body: string, r: CString, c: char)
    requires ClassBody(inverted, body)
    ensures '\0' !in ClassText(inverted, body) + r
    ensures var pat: CString := ClassText(inverted, body) + r;
      var (token, next) := TokenAt(pat, 0);
      && pat[0] == '[' && next == |ClassText(inverted, body)|
      && token.Class? && token.inverted == inverted && (InSpans(token.spans, c) <==> Listed(body, c))
  {
    var pre := if inverted then "[!" else "[";
    var pat: CString := ClassText(inverted, body) + r;
    assert pat == pre + body + "]" + r;
    assert pat[|pre|..|pre| + |body|] == body && pat[..|pre|] == pre;
    assert pat[|pre|] == body[0] && pat[0] == pre[0] && (inverted ==> pat[1] == pre[1]);
    assert BodyAt(pat, |pre|, body);
    BodySpans(pat, |pre|, body, c);
    hide SpansFrom, Listed, InSpans;
  }

  /** A class accepts the characters listed in it, with an exclamation mark the others. */
  lemma ClassLaw(inverted: bool, body: string, r: CString, s: string)
    requires ClassBody(inverted, body)
    ensures '\0' !in ClassText(inverted, body) + r
    ensures Means(Tokens(ClassText(inverted, body) + r), s)
       <==> s != "" && (if inverted then !Listed(body, s[0]) else Listed(body, s[0])) && Means(Tokens(r), s[1..])
  {
    var c := if s != "" then s[0] else ' ';
    ClassToken(inverted, body, r, c);
    var u := ClassText(inverted, body);
    hide Listed, InSpans, TokenAt, Tokens, Means, ClassText, ClassBody;
    OneThenRest(u, r, TokenAt(u + r, 0).0, s);
  }

  /** Without such a bracket there is no end. */
  lemma {:induction false} NoEnd(pat: CString, i: nat)
    requires i >= |pat| || ']' !in pat[i + 1..]
    ensures SpansFrom(pat, i).Malformed?
    decreases |pat| - i
  {
    if SpanAt(pat, i).Some? {
      var next := SpanAt(pat, i).value.1;
      if next < |pat| {
        assert pat[next] == pat[i + 1..][next - i - 1];
        assert pat[next + 1..] == pat[i + 1..][next - i..];
      }
      hide SpanAt;
      NoEnd(pat, next);
    }
  }

  /** A bracket that opens no class stands for itself. */
  lemma UnclosedLaw(r: CString, s: string)
    requires var body := if r != "" && r[0] == '!' then r[1..] else r;
      body == "" || ']' !in body[1..]
    ensures '\0' !in "[" + r
    ensures Means(Tokens("[" + r), s) <==> s != "" && s[0] == '[' && Means(Tokens(r), s[1..])
  {
    var pat: CString := "[" + r;
    var inverted := At(pat, 1) == '!';
    if r != "" {
      assert pat[1] == r[0];
      assert pat[2..] == r[1..];
      assert |pat| > 2 ==> pat[3..] == r[1..][1..];
    }
    NoEnd(pat, if inverted then 2 else 1);
    hide SpansFrom;
    OneThenRest("[", r, Literal('['), s);
  }

  // ----- whole patterns -----

  lemma EndLaw(s: string)
    ensures Means(Tokens(""), s) <==> s == ""
  {
    EmptyLaw("", s);
  }

  /** A range, with an exclamation mark the rest. */
  lemma RangePattern(lo: char, hi: char, s: string)
    requires lo !in {'\0', '!', ']'} && hi !in {'\0', ']'}
    ensures '\0' !in "[" + [lo] + "-" + [hi] + "]" && '\0' !in "[!" + [lo] + "-" + [hi] + "]"
    ensures Means(Tokens("[" + [lo] + "-" + [hi] + "]"), s) <==> |s| == 1 && lo <= s[0] <= hi
    ensures Means(Tokens("[!" + [lo] + "-" + [hi] + "]"), s) <==> |s| == 1 && !(lo <= s[0] <= hi)
  {
    var body := [lo] + "-" + [hi];
    assert body[1..] == "-" + [hi] && body[3..] == "";
    assert ClassText(false, body) + "" == "[" + [lo] + "-" + [hi] + "]";
    assert ClassText(true, body) + "" == "[!" + [lo] + "-" + [hi] + "]";
    ClassLaw(false, body, "", s);
    ClassLaw(true, body, "", s);
    hide Means, Tokens;
    if s != "" {
      assert Listed(body, s[0]) <==> lo <= s[0] <= hi;
      EndLaw(s[1..]);
    }
  }

  /** A question mark, a backslash with one character, and a bracket that opens no class. */
  lemma SmallPatterns(c: char, s: CString)
    requires c != '\0'
    ensures Means(Tokens("?"), s) <==> |s| == 1
    ensures '\0' !in "\\" + [c] && (Means(Tokens("\\" + [c]), s) <==> s == [c])
    ensures Means(Tokens("[]a"), s) <==> s == "[]a"
  {
    QuestionLaw("", s);
    EscapeLaw(c, "", s);
    assert "?" + "" == "?" && "\\" + [c] + "" == "\\" + [c];
    hide Means, Tokens;
    if s != "" {
      EndLaw(s[1..]);
    }
    UnclosedIsPlain(s);
  }

  lemma UnclosedIsPlain(s: CString)
    ensures Means(Tokens("[]a"), s) <==> s == "[]a"
  {
    assert "[]a" == "[" + "]a";
    UnclosedLaw("]a", s);
    hide Means, Tokens;
    if s != "" {
      assert forall c :: c in s[1..] ==> c in s;
      PlainPatterns("]a", s[1..]);
      assert s == [s[0]] + s[1..];
    }
  }
}
