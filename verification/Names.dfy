/**
 Names in the deleted area: "<base>-<timestamp>". Three pieces of the code take such names apart,
 each in its own way; here they are compared, and printing a name is shown to be undone by each.
 */
module Names {
  import opened Integers
  import opened Wrappers

  predicate IsDigit(c: char) {
    '0' <= c <= '9'
  }

  predicate AllDigits(s: string) {
    forall c <- s :: IsDigit(c)
  }

  function DigitChar(d: nat): (c: char)
    requires d < 10
    ensures IsDigit(c)
  {
    ('0' as int + d) as char
  }

  /** The decimal digits of a number, without leading zeros. */
  function Decimal(n: nat): (s: string)
    ensures s != "" && AllDigits(s)
  {
    if n < 10 then [DigitChar(n)] else Decimal(n / 10) + [DigitChar(n % 10)]
  }

  /** The number that a string of digits denotes. */
  function Value(s: string): nat
    requires AllDigits(s)
  {
    if s == "" then 0 else
    assert IsDigit(s[|s| - 1]);
    10 * Value(s[..|s| - 1]) + (s[|s| - 1] as int - '0' as int)
  }

  lemma {:induction false} DecimalValue(n: nat)
    ensures Value(Decimal(n)) == n
  {
    if n < 10 {
      assert Decimal(n)[..0] == "";
    } else {
      DecimalValue(n / 10);
      assert Decimal(n)[..|Decimal(n)| - 1] == Decimal(n / 10);
    }
  }

  /** The name of an entry or directory in the deleted area. */
  function Stamped(base: string, ts: nat): string {
    base + "-" + Decimal(ts)
  }

  // ----- the last dash -----

  /** The position of the last dash, or the length if there is none. */
  function LastDash(s: string): (i: nat)
    ensures i <= |s|
    ensures i < |s| ==> s[i] == '-'
    ensures forall j :: (i == |s| || i < j) && 0 <= j < |s| ==> s[j] != '-'
  {
    if s == "" then 0
    else if s[|s| - 1] == '-' then |s| - 1
    else
      var i := LastDash(s[..|s| - 1]);
      if i < |s| - 1 then i else |s|
  }

  lemma LastDashIs(base: string, suffix: string)
    requires '-' !in suffix
    ensures var id := base + "-" + suffix;
      LastDash(id) == |base| && id[..|base|] == base && id[|base| + 1..] == suffix
  {
    var id := base + "-" + suffix;
    assert id[|base|] == '-';
    forall j | |base| < j < |id|
      ensures id[j] != '-'
    {
      assert id[j] == suffix[j - |base| - 1];
    }
  }

  lemma DigitsHaveNoDash(s: string)
    requires AllDigits(s)
    ensures '-' !in s
  {
  }

  // ----- splitExpiredId and timestampFromId -----

  /** std::stoll on digits only; out of range above 2^63 - 1. */
  function ParseDigits(s: string): Option<nat>
    requires AllDigits(s)
  {
    if Value(s) < TWO_63 then Some(Value(s)) else None
  }

  /** The shape both parsers demand: non-empty base, and digits after the last dash. */
  predicate HasStamp(id: string) {
    var dash := LastDash(id);
    0 < dash && dash + 1 < |id| && AllDigits(id[dash + 1..])
  }

  function TimestampFromId(id: string): Option<nat> {
    if HasStamp(id) then ParseDigits(id[LastDash(id) + 1..]) else None
  }

  function SplitExpiredId(id: string): Option<(string, nat)> {
    match TimestampFromId(id)
    case None => None
    case Some(ts) => Some((id[..LastDash(id)], ts))
  }

  /** The largest timestamp that phase 3 of the stray cleanup finds plausible, in the year 2100. */
  const MAX_PLAUSIBLE: nat := 4102444800

  /** trailing_timestamp of the expirer: writes its out-parameter only on success. */
  method TrailingTimestamp(name: string, previous: int) returns (found: bool, ts: int)
    ensures found <==> TimestampFromId(name).Some? && 0 < TimestampFromId(name).value <= 4102444800
    ensures ts == if found then TimestampFromId(name).value else previous
  {
    found, ts := false, previous;
    var dash := LastDash(name);
    if dash == |name| || dash == 0 || dash + 1 >= |name| {
      return;
    }
    if !AllDigits(name[dash + 1..]) {
      return;
    }
    var val := ParseDigits(name[dash + 1..]);
    if val.None? || val.value <= 0 || val.value > MAX_PLAUSIBLE {
      return;
    }
    found, ts := true, val.value;
  }

  /** Printing a name is undone by splitting it, for every non-empty base, dashes or not. */
  lemma StampedSplits(base: string, ts: nat)
    requires base != "" && ts < TWO_63
    ensures SplitExpiredId(Stamped(base, ts)) == Some((base, ts))
    ensures TimestampFromId(Stamped(base, ts)) == Some(ts)
  {
    DigitsHaveNoDash(Decimal(ts));
    LastDashIs(base, Decimal(ts));
    DecimalValue(ts);
  }

  /** A name is split exactly if it is a base, a dash, and digits whose value is in range. */
  lemma SplitsIff(id: string, base: string, ts: nat)
    ensures SplitExpiredId(id) == Some((base, ts))
       <==> base != "" && ts < TWO_63 && exists d :: d != "" && AllDigits(d) && id == base + "-" + d && Value(d) == ts
    ensures TimestampFromId(id) == if SplitExpiredId(id).Some? then Some(SplitExpiredId(id).value.1) else None
  {
    if SplitExpiredId(id) == Some((base, ts)) {
      var d := id[LastDash(id) + 1..];
      assert id == base + "-" + d;
    }
    if d :| d != "" && AllDigits(d) && id == base + "-" + d && Value(d) == ts {
      DigitsHaveNoDash(d);
      LastDashIs(base, d);
    }
  }

  /** A name determines its base and timestamp. */
  lemma StampedInjective(base: string, ts: nat, base': string, ts': nat)
    requires Stamped(base, ts) == Stamped(base', ts')
    ensures base == base' && ts == ts'
  {
    DigitsHaveNoDash(Decimal(ts));
    DigitsHaveNoDash(Decimal(ts'));
    LastDashIs(base, Decimal(ts));
    LastDashIs(base', Decimal(ts'));
    DecimalValue(ts);
    DecimalValue(ts');
  }

  // ----- the expirer: split at every dash, take as many fields as there are dashes -----

  function CountDashes(s: string): nat {
    if s == "" then 0 else (if s[0] == '-' then 1 else 0) + CountDashes(s[1..])
  }

  function FirstDelimiter(s: string, delimiter: char): (i: nat)
    ensures i <= |s|
    ensures forall j :: 0 <= j < i ==> s[j] != delimiter
    ensures i < |s| ==> s[i] == delimiter
  {
    if s == "" || s[0] == delimiter then 0 else 1 + FirstDelimiter(s[1..], delimiter)
  }

  /** The fields of a string as std::getline delivers them: none after a delimiter at the very end. */
  function Fields(s: string, delimiter: char): seq<string>
    decreases |s|
  {
    if s == "" then [] else
    var i := FirstDelimiter(s, delimiter);
    if i == |s| then [s] else [s[..i]] + Fields(s[i + 1..], delimiter)
  }

  /** A word and a delimiter make a field, whatever follows; a word at the end is one if it is not empty. */
  lemma FieldsLaw(word: string, delimiter: char, rest: string)
    requires delimiter !in word
    ensures Fields(word + [delimiter] + rest, delimiter) == [word] + Fields(rest, delimiter)
    ensures Fields(word, delimiter) == if word == "" then [] else [word]
  {
    var s := word + [delimiter] + rest;
    assert s[|word|] == delimiter;
    assert forall j | 0 <= j < |word| :: s[j] == word[j];
    assert s[..|word|] == word && s[|word| + 1..] == rest;
  }

  /** One std::getline: the characters up to the delimiter, which is consumed. */
  method GetLine(stream: string, delimiter: char) returns (word: string, rest: string)
    requires stream != ""
    ensures |rest| < |stream| && Fields(stream, delimiter) == [word] + Fields(rest, delimiter)
  {
    var i := 0;
    while i < |stream| && stream[i] != delimiter
      invariant i <= FirstDelimiter(stream, delimiter)
    {
      i := i + 1;
    }
    assert i == FirstDelimiter(stream, delimiter);
    word, rest := stream[..i], if i < |stream| then stream[i + 1..] else "";
    assert i == |stream| ==> word == stream;
  }

  /** splitString: one getline per round until nothing is left. */
  method SplitString(str: string, delimiter: char) returns (words: seq<string>)
    ensures words == Fields(str, delimiter)
  {
    words := [];
    var rest := str;
    while rest != ""
      invariant words + Fields(rest, delimiter) == Fields(str, delimiter)
      decreases |rest|
    {
      hide Fields;
      var word, tail := GetLine(rest, delimiter);
      assert words + ([word] + Fields(tail, delimiter)) == words + [word] + Fields(tail, delimiter);
      words, rest := words + [word], tail;
    }
  }

  /** The white space and sign that std::stol skips before the digits. */
  predicate IsSpace(c: char) {
    c == ' ' || '\t' <= c <= '\r'
  }

  function SkipSpaces(s: string): string {
    if s != "" && IsSpace(s[0]) then SkipSpaces(s[1..]) else s
  }

  function LeadingDigits(s: string): (d: string)
    ensures AllDigits(d) && d <= s
  {
    if s != "" && IsDigit(s[0]) then [s[0]] + LeadingDigits(s[1..]) else ""
  }

  /** std::stol: no digits is an invalid argument, too many are out of range. */
  function Stol(s: string): Option<int> {
    var t := SkipSpaces(s);
    var negative, signed := t != "" && t[0] == '-', t != "" && (t[0] == '-' || t[0] == '+');
    var digits := LeadingDigits(if signed then t[1..] else t);
    var value := if negative then 0 - Value(digits) else Value(digits);
    if digits == "" || !(0 - TWO_63 <= value < TWO_63) then None else Some(value)
  }

  /** What std::stol reads: spaces, a sign, digits; whatever follows is ignored. */
  lemma StolReads(spaces: string, sign: string, digits: string, rest: string)
    requires (forall c <- spaces :: IsSpace(c)) && sign in {"", "+", "-"} && digits != "" && AllDigits(digits)
    requires rest == "" || !IsDigit(rest[0])
    ensures var value := if sign == "-" then 0 - Value(digits) else Value(digits);
      Stol(spaces + sign + digits + rest)
      == if -0x8000_0000_0000_0000 <= value < 0x8000_0000_0000_0000 then Some(value) else None
  {
    var tail := sign + digits + rest;
    assert spaces + sign + digits + rest == spaces + tail;
    assert tail[0] == if sign == "" then digits[0] else sign[0];
    assert digits[0] in digits;
    SpacesAreSkipped(spaces, tail);
    DigitsAreRead(digits, rest);
    StolAfterSpaces(spaces + tail, sign, digits, rest);
    hide Stol, Value;
  }

  lemma StolAfterSpaces(s: string, sign: string, digits: string, rest: string)
    requires SkipSpaces(s) == sign + digits + rest && LeadingDigits(digits + rest) == digits
    requires sign in {"", "+", "-"} && digits != "" && AllDigits(digits) && IsDigit(digits[0])
    ensures var value := if sign == "-" then 0 - Value(digits) else Value(digits);
      Stol(s) == if 0 - TWO_63 <= value < TWO_63 then Some(value) else None
  {
    hide SkipSpaces, LeadingDigits, Value, AllDigits;
    var t := SkipSpaces(s);
    assert if sign == "" then t[0] == digits[0] && t == digits + rest else t[0] == sign[0] && t[1..] == digits + rest;
  }

  lemma {:induction false} SpacesAreSkipped(spaces: string, tail: string)
    requires (forall c <- spaces :: IsSpace(c)) && (tail == "" || !IsSpace(tail[0]))
    ensures SkipSpaces(spaces + tail) == tail
  {
    if spaces == "" {
      assert spaces + tail == tail;
    } else {
      assert spaces[0] in spaces;
      assert (spaces + tail)[1..] == spaces[1..] + tail;
      SpacesAreSkipped(spaces[1..], tail);
    }
  }

  lemma {:induction false} DigitsAreRead(digits: string, rest: string)
    requires AllDigits(digits) && (rest == "" || !IsDigit(rest[0]))
    ensures LeadingDigits(digits + rest) == digits
  {
    if digits == "" {
      assert digits + rest == rest;
    } else {
      assert digits[0] in digits;
      assert (digits + rest)[1..] == digits[1..] + rest;
      DigitsAreRead(digits[1..], rest);
      assert digits == [digits[0]] + digits[1..];
    }
  }

  /** The timestamp the expirer reads from a name. */
  function ExpirerTimestamp(id: string): Option<int> {
    var fields, n := Fields(id, '-'), CountDashes(id);
    if n < |fields| then Stol(fields[n]) else None
  }

  function AfterLastDash(s: string): string {
    if LastDash(s) < |s| then s[LastDash(s) + 1..] else s
  }

  /** The field at the position that is the number of dashes is the one after the last dash. */
  lemma {:induction false} LastField(s: string)
    requires s != "" && AfterLastDash(s) != ""
    ensures |Fields(s, '-')| == CountDashes(s) + 1 && Fields(s, '-')[CountDashes(s)] == AfterLastDash(s)
    decreases |s|
  {
    hide AfterLastDash, CountDashes;
    var i := FirstDelimiter(s, '-');
    CountAtFirst(s, i);
    AfterFirstDash(s, i);
    if i < |s| {
      var rest := s[i + 1..];
      LastField(rest);
      var fields := Fields(rest, '-');
      assert Fields(s, '-') == [s[..i]] + fields;
    }
  }

  lemma {:induction false} CountAtFirst(s: string, i: nat)
    requires i <= |s| && (forall j :: 0 <= j < i ==> s[j] != '-') && (i < |s| ==> s[i] == '-')
    ensures CountDashes(s) == if i < |s| then 1 + CountDashes(s[i + 1..]) else 0
  {
    if i > 0 {
      CountAtFirst(s[1..], i - 1);
      assert i < |s| ==> s[1..][i..] == s[i + 1..];
    }
  }

  lemma NoDashAfterLast(s: string)
    requires LastDash(s) < |s|
    ensures '-' !in s[LastDash(s) + 1..]
  {
    var rest := s[LastDash(s) + 1..];
    forall j | 0 <= j < |rest|
      ensures rest[j] != '-'
    {
      assert rest[j] == s[LastDash(s) + 1 + j];
    }
  }

  /** Dropping everything up to an earlier dash keeps the part after the last one. */
  lemma AfterEarlierDash(before: string, middle: string, suffix: string)
    requires '-' !in suffix
    ensures AfterLastDash(before + "-" + middle + "-" + suffix) == suffix == AfterLastDash(middle + "-" + suffix)
  {
    LastDashIs(before + "-" + middle, suffix);
    LastDashIs(middle, suffix);
    assert before + "-" + middle + "-" + suffix == (before + "-" + middle) + "-" + suffix;
  }

  lemma AfterFirstDash(s: string, i: nat)
    requires i <= |s| && (forall j :: 0 <= j < i ==> s[j] != '-') && (i < |s| ==> s[i] == '-')
    ensures i == |s| ==> AfterLastDash(s) == s
    ensures i < |s| && AfterLastDash(s) != "" ==> s[i + 1..] != "" && AfterLastDash(s[i + 1..]) == AfterLastDash(s)
  {
    var d := LastDash(s);
    if i < d < |s| {
      var before, middle, suffix := s[..i], s[i + 1..d], s[d + 1..];
      NoDashAfterLast(s);
      assert s[i + 1..] == middle + "-" + suffix;
      assert s == before + "-" + middle + "-" + suffix;
      AfterEarlierDash(before, middle, suffix);
    } else if d == i < |s| {
      NoDashAfterLast(s);
    }
  }

  lemma {:induction false} StolOfDigits(s: string)
    requires s != "" && AllDigits(s)
    ensures Stol(s) == match ParseDigits(s) case None => None case Some(n) => Some(n)
  {
    DigitsAreRead(s, "");
    assert s + "" == s;
  }

  /** On every id with a base and a digit suffix, all parsers read the same timestamp or none. */
  lemma ParsersAgree(id: string)
    requires HasStamp(id)
    ensures ExpirerTimestamp(id) == match TimestampFromId(id) case None => None case Some(n) => Some(n)
    ensures match TimestampFromId(id)
            case None => SplitExpiredId(id) == None
            case Some(n) => SplitExpiredId(id) == Some((id[..LastDash(id)], n))
  {
    hide Fields, CountDashes, LastDash, Stol, Value;
    LastField(id);
    StolOfDigits(id[LastDash(id) + 1..]);
  }

  lemma {:induction false} NoFieldAfterLast(s: string)
    requires AfterLastDash(s) == ""
    ensures |Fields(s, '-')| <= CountDashes(s)
    decreases |s|
  {
    hide AfterLastDash, CountDashes;
    if s == "" {
      EmptyCounts();
    } else {
      var i := FirstDelimiter(s, '-');
      CountAtFirst(s, i);
      AfterFirstDash(s, i);
      EarlierDashKeepsEmpty(s, i);
      NoFieldAfterLast(s[i + 1..]);
    }
  }

  lemma EmptyCounts()
    ensures |Fields("", '-')| == 0 && CountDashes("") == 0
  {
  }

  lemma EndsInDash(s: string)
    requires s != ""
    ensures AfterLastDash(s) == "" <==> s[|s| - 1] == '-'
  {
  }

  lemma EarlierDashKeepsEmpty(s: string, i: nat)
    requires s != "" && AfterLastDash(s) == "" && i == FirstDelimiter(s, '-')
    ensures i < |s| && AfterLastDash(s[i + 1..]) == ""
  {
    EndsInDash(s);
    var rest := s[i + 1..];
    if rest != "" {
      assert rest[|rest| - 1] == s[|s| - 1];
      EndsInDash(rest);
    }
  }

  /** What the expirer reads from a name is what stands after the last dash. */
  lemma ExpirerReadsTheEnd(id: string)
    ensures ExpirerTimestamp(id) == Stol(AfterLastDash(id))
  {
    hide Fields, CountDashes;
    if AfterLastDash(id) == "" {
      NoFieldAfterLast(id);
    } else {
      hide Stol;
      LastField(id);
    }
  }

  /**
   For every name the expirer and timestampFromId read the same timestamp, or both none, exactly if the
   name has a base and a digit suffix, or what stands after its last dash is no number to std::stol.
   */
  lemma ParsersAgreeIff(id: string)
    ensures (ExpirerTimestamp(id) == match TimestampFromId(id) case None => None case Some(n) => Some(n))
      <==> (HasStamp(id) || Stol(AfterLastDash(id)) == None)
  {
    hide Fields, CountDashes, LastDash, Stol, Value;
    ExpirerReadsTheEnd(id);
    if HasStamp(id) {
      ParsersAgree(id);
    }
  }

  /** The number after the last dash has no sign of its own. */
  lemma ExpirerTimeIsNatural(id: string)
    requires ExpirerTimestamp(id).Some?
    ensures ExpirerTimestamp(id).value >= 0
  {
    hide Fields, CountDashes, Value;
    ExpirerReadsTheEnd(id);
    if LastDash(id) < |id| {
      NoDashAfterLast(id);
    }
    SkippingIsSuffix(AfterLastDash(id));
  }

  lemma {:induction false} SkippingIsSuffix(s: string)
    requires '-' !in s
    ensures '-' !in SkipSpaces(s)
  {
    if s != "" {
      SkippingIsSuffix(s[1..]);
    }
  }

  /** So they differ on a number that other characters follow. */
  lemma ParsersDiffer()
    ensures TimestampFromId("ann-7b") == None && ExpirerTimestamp("ann-7b") == Some(7)
  {
    var id, suffix := "ann-7b", "7b";
    assert id == "ann" + "-" + suffix;
    LastDashIs("ann", suffix);
    assert suffix[1] in suffix && !IsDigit(suffix[1]);
    LastField(id);
    StolSevenB(suffix);
  }

  lemma StolSevenB(s: string)
    requires s == "7b"
    ensures Stol(s) == Some(7)
  {
    assert s[1..] == "b" && LeadingDigits("b") == "";
    assert LeadingDigits(s) == "7";
    assert "7"[..0] == "";
  }
}
