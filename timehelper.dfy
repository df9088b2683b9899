/**
  The date-text parser and validator of timehelper.c: the digit check, the
  bounded token conversion, `strtok` tokenising on the delimiters `-`, `:`,
  space and newline, the per-field range mapping into a `struct tm`, the
  field-wise comparison and the normalise-and-compare validity check.
  `mktime` is a parameter of the validity check.
 */
module TimeHelper {
  import opened Wrappers
  import opened Numerals

  /** TIME_COMPONENTS: year, month, day, hour, minute, second. */
  const TimeComponents: nat := 6

  /** The fields of `struct tm` the planner reads or writes (tm_wday and tm_yday are never read). */
  datatype Tm = Tm(year: int, mon: int, mday: int, hour: int, min: int, sec: int, isdst: int)

  // ---------------------------------------------------------------- isNumber

  /** isNumber: true iff every character is a decimal digit (so true for the empty string). */
  method IsNumber(s: string) returns (r: bool)
    ensures r <==> AllDigits(s)
  {
    var n := 0;
    while n < |s|
      invariant 0 <= n <= |s|
      invariant forall i :: 0 <= i < n ==> IsDigit(s[i])
    {
      if !IsDigit(s[n]) {
        return false;
      }
      n := n + 1;
    }
    return true;
  }

  // -------------------------------------------------------- containsNegative

  /** containsNegative(n, a1, ..., an): the variadic arguments are the sequence args. */
  method ContainsNegative(n: int, args: seq<int>) returns (r: bool)
    requires n <= |args|
    ensures r <==> exists i :: 0 <= i < n && args[i] < 0
  {
    var i := 0;
    while i < n
      invariant 0 <= i && (i <= n || i == 0)
      invariant forall k :: 0 <= k < i ==> args[k] >= 0
    {
      if args[i] < 0 {
        return true;
      }
      i := i + 1;
    }
    return false;
  }

  // --------------------------------------------------------------- compareTm

  /** compareTm: equal year, month, day, hour, minute and second. */
  function CompareTm(a: Tm, b: Tm): (r: bool)
    ensures r <==> CalendarFields(a) == CalendarFields(b)
  {
    && a.year == b.year
    && a.mon == b.mon
    && a.mday == b.mday
    && a.hour == b.hour
    && a.min == b.min
    && a.sec == b.sec
  }

  /** compareTm is an equivalence relation. */
  lemma CompareTmIsEquivalence(a: Tm, b: Tm, c: Tm)
    ensures CompareTm(a, a)
    ensures CompareTm(a, b) == CompareTm(b, a)
    ensures CompareTm(a, b) && CompareTm(b, c) ==> CompareTm(a, c)
  {
  }

  /** compareTm holds exactly when the two values differ at most in tm_isdst. */
  lemma CompareTmIgnoresOnlyDst(a: Tm, b: Tm)
    ensures CompareTm(a, b) <==> a.(isdst := b.isdst) == b
  {
  }

  // ------------------------------------------------------------- isValidDate

  /** The six fields isValidDate hands to containsNegative, in that order. */
  function CalendarFields(t: Tm): seq<int> {
    [t.year, t.mon, t.mday, t.hour, t.min, t.sec]
  }

  /**
    isValidDate: no field negative, `mktime` succeeds and leaves the six fields
    as they were. `mktime` maps a tm to its normalised tm and its timestamp;
    `normalized` is what `*ptr` holds afterwards. mktime is called whatever
    the first check says, as in the source.
   */
  method IsValidDate(t: Tm, mktime: Tm -> (Tm, int)) returns (ok: bool, normalized: Tm)
    ensures normalized == mktime(t).0
    ensures ok <==>
      && t.year >= 0 && t.mon >= 0 && t.mday >= 0 && t.hour >= 0 && t.min >= 0 && t.sec >= 0
      && mktime(t).1 > -1
      && CompareTm(mktime(t).0, t)
  {
    var check := t;
    var fields := CalendarFields(t);
    var negative := ContainsNegative(TimeComponents, fields);
    assert negative <==> t.year < 0 || t.mon < 0 || t.mday < 0 || t.hour < 0 || t.min < 0 || t.sec < 0 by {
      assert fields[0] == t.year && fields[1] == t.mon && fields[2] == t.mday;
      assert fields[3] == t.hour && fields[4] == t.min && fields[5] == t.sec;
    }
    var parserOk := !negative;
    var (after, stamp) := mktime(t);
    normalized := after;
    var successfulMktime := stamp > -1;
    var mktimeUnchanged := CompareTm(normalized, check);
    ok := parserOk && successfulMktime && mktimeUnchanged;
  }

  // ----------------------------------------------------- convertStrWithCheck

  /**
    The value convertStrWithCheck gives a token (None stands for NULL): the
    decimal value of a token of 2 to 4 digits, and -1 for anything else.
   */
  function Converted(tok: Option<string>): (v: int)
    ensures v != -1 <==> tok.Some? && 2 <= |tok.value| <= 4 && AllDigits(tok.value)
    ensures v != -1 ==> v == DecimalValue(tok.value) && 0 <= v <= 9999
  {
    if tok.Some? && 1 < |tok.value| < 5 && AllDigits(tok.value) then
      FourDigitsBound(tok.value);
      DecimalValue(tok.value)
    else
      -1
  }

  lemma FourDigitsBound(s: string)
    requires |s| <= 4 && AllDigits(s)
    ensures DecimalValue(s) <= 9999
  {
    assert Pow10(4) == 10000;
    if |s| < 4 {
      assert Pow10(|s|) <= 1000;
    }
  }

  method ConvertStrWithCheck(tok: Option<string>) returns (v: int)
    ensures v == Converted(tok)
  {
    if tok.Some? {
      var length := |tok.value|;
      if 1 < length && length < 5 {
        var digits := IsNumber(tok.value);
        if digits {
          return DecimalValue(tok.value);
        }
      }
    }
    return -1;
  }

  // ---------------------------------------------------------------- strtok

  /** The delimiters parse_time hands to strtok: "-: \n". */
  predicate IsDelimiter(c: char) {
    c == '-' || c == ':' || c == ' ' || c == '\n'
  }

  predicate IsTokenChar(c: char) {
    !IsDelimiter(c)
  }

  /** A token: non-empty and free of delimiters. */
  predicate IsToken(t: string) {
    |t| > 0 && forall i :: 0 <= i < |t| ==> IsTokenChar(t[i])
  }

  /** The tokens strtok yields for s: its maximal runs of non-delimiter characters, in order. */
  function Tokens(s: string): (r: seq<string>)
    ensures forall k :: 0 <= k < |r| ==> IsToken(r[k])
    decreases |s|
  {
    if s == [] then []
    else if IsDelimiter(s[0]) then Tokens(s[1..])
    else
      var e := SpanEnd(s, 0, IsTokenChar);
      [s[..e]] + Tokens(s[e..])
  }

  /** A token followed by a delimiter is the first token, whatever follows. */
  lemma TokensOfTokenThenDelimiter(tok: string, d: char, rest: string)
    requires IsToken(tok) && IsDelimiter(d)
    ensures Tokens(tok + [d] + rest) == [tok] + Tokens(rest)
  {
    var s := tok + [d] + rest;
    SpanEndUnique(s, 0, IsTokenChar, |tok|);
    assert s[..|tok|] == tok;
    assert s[|tok|..][1..] == rest;
  }

  /**
    Splitting at any one delimiter character: which of "-: \n" it is does not
    matter and a run of them counts as one, so delimiters are interchangeable
    and repeatable.
   */
  lemma {:induction false} TokensSplitAtDelimiter(a: string, d: char, b: string)
    requires IsDelimiter(d)
    ensures Tokens(a + [d] + b) == Tokens(a) + Tokens(b)
    decreases |a|
  {
    var s := a + [d] + b;
    if a == [] {
      assert s[1..] == b;
    } else if IsDelimiter(a[0]) {
      assert s[1..] == a[1..] + [d] + b;
      TokensSplitAtDelimiter(a[1..], d, b);
    } else {
      var e := SpanEnd(a, 0, IsTokenChar);
      SpanEndUnique(s, 0, IsTokenChar, e);
      assert s[..e] == a[..e];
      if e < |a| {
        assert s[e..] == a[e..] + [d] + b;
        TokensSplitAtDelimiter(a[e..], d, b);
      } else {
        assert a[..e] == a;
        assert s[e..][1..] == b;
        assert a[e..] == [];
      }
    }
  }

  /**
    strtok(NULL, delimiter) over s from the saved position pos: skip
    delimiters, take the run up to the next delimiter, and continue past that
    delimiter next time (strtok overwrites it with a terminator).
   */
  method Strtok(s: string, pos: nat) returns (tok: Option<string>, next: nat)
    requires pos <= |s|
    ensures pos <= next <= |s|
    ensures Tokens(s[pos..]) == if tok.None? then [] else [tok.value] + Tokens(s[next..])
    ensures tok.None? ==> next == |s|
  {
    var i := pos;
    while i < |s| && IsDelimiter(s[i])
      invariant pos <= i <= |s|
      invariant Tokens(s[pos..]) == Tokens(s[i..])
    {
      TokensSkipDelimiter(s, i);
      i := i + 1;
    }
    if i == |s| {
      assert s[i..] == [];
      return None, i;
    }
    var j := i;
    while j < |s| && !IsDelimiter(s[j])
      invariant i <= j <= |s|
      invariant forall k :: i <= k < j ==> IsTokenChar(s[k])
    {
      j := j + 1;
    }
    next := if j < |s| then j + 1 else j;
    TokensFromRun(s, i, j);
    tok := Some(s[i..j]);
  }

  lemma TokensSkipDelimiter(s: string, i: nat)
    requires i < |s| && IsDelimiter(s[i])
    ensures Tokens(s[i..]) == Tokens(s[i + 1..])
  {
    assert s[i..][1..] == s[i + 1..];
  }

  /** A maximal run of token characters from i is the first token of s[i..]. */
  lemma TokensFromRun(s: string, i: nat, j: nat)
    requires i < j <= |s|
    requires forall k :: i <= k < j ==> IsTokenChar(s[k])
    requires j == |s| || IsDelimiter(s[j])
    ensures Tokens(s[i..]) == [s[i..j]] + Tokens(s[if j < |s| then j + 1 else j..])
  {
    var t := s[i..];
    SpanEndUnique(t, 0, IsTokenChar, j - i);
    assert t[..j - i] == s[i..j];
    assert t[j - i..] == s[j..];
    if j < |s| {
      assert s[j..][1..] == s[j + 1..];
    }
  }

  // -------------------------------------------------------------- parse_time

  /** The token strtok returns on its k-th call, None once the tokens are used up. */
  function TokenAt(toks: seq<string>, k: nat): Option<string> {
    if k < |toks| then Some(toks[k]) else None
  }

  /** The tokens left after k strtok calls. */
  function Remaining(toks: seq<string>, k: nat): seq<string> {
    if k <= |toks| then toks[k..] else []
  }

  /** One strtok call hands out the next token and leaves the rest. */
  lemma StrtokAdvances(toks: seq<string>, k: nat, tok: Option<string>, after: seq<string>)
    requires Remaining(toks, k) == if tok.None? then [] else [tok.value] + after
    requires tok.None? ==> after == []
    ensures tok == TokenAt(toks, k)
    ensures after == Remaining(toks, k + 1)
  {
    if tok.Some? {
      assert k < |toks|;
      assert toks[k..][1..] == toks[k + 1..];
    }
  }

  /** The components array parse_time fills: the conversions of the first six tokens. */
  function Components(s: string): (c: seq<int>)
    ensures |c| == TimeComponents
  {
    Conversions(Tokens(s), TimeComponents)
  }

  /** The conversions of the first n tokens strtok hands out. */
  function Conversions(toks: seq<string>, n: nat): (c: seq<int>)
    ensures |c| == n
  {
    seq(n, k requires 0 <= k < n => Converted(TokenAt(toks, k)))
  }

  lemma ConversionsSnoc(toks: seq<string>, n: nat)
    ensures Conversions(toks, n + 1) == Conversions(toks, n) + [Converted(TokenAt(toks, n))]
  {
  }

  /**
    The range mapping of parse_time: every field is its component, shifted
    for year (minus 1900) and month (minus 1), when the component lies in the
    field's range, and the sentinel -1 otherwise; tm_isdst is -1.
   */
  function FieldsOf(c: seq<int>): (t: Tm)
    requires |c| == TimeComponents
    ensures t.isdst == -1
    ensures t.year == -1 || 121 <= t.year <= 8099
    ensures t.mon == -1 || 0 <= t.mon <= 11
    ensures t.mday == -1 || 1 <= t.mday <= 31
    ensures t.hour == -1 || 0 <= t.hour <= 23
    ensures t.min == -1 || 0 <= t.min <= 59
    ensures t.sec == -1 || 0 <= t.sec <= 59
    ensures t.year != -1 <==> 2020 < c[0] < 10000
    ensures t.mon != -1 <==> 0 < c[1] < 13
    ensures t.mday != -1 <==> 0 < c[2] < 32
    ensures t.hour != -1 <==> 0 <= c[3] < 24
    ensures t.min != -1 <==> 0 <= c[4] < 60
    ensures t.sec != -1 <==> 0 <= c[5] < 60
  {
    Tm(year := if c[0] > 2020 && c[0] < 10000 then c[0] - 1900 else -1,
       mon := if c[1] > 0 && c[1] < 13 then c[1] - 1 else -1,
       mday := if c[2] > 0 && c[2] < 32 then c[2] else -1,
       hour := if c[3] >= 0 && c[3] < 24 then c[3] else -1,
       min := if c[4] >= 0 && c[4] < 60 then c[4] else -1,
       sec := if c[5] >= 0 && c[5] < 60 then c[5] else -1,
       isdst := -1)
  }

  /** The tm parse_time produces for a line of text. */
  function ParsedTime(s: string): Tm {
    FieldsOf(Components(s))
  }

  /** parse_time: six strtok calls feeding convertStrWithCheck, then the range mapping. */
  method ParseTime(input: string) returns (t: Tm)
    ensures t == ParsedTime(input)
  {
    ghost var toks := Tokens(input);
    var components := new int[TimeComponents];
    assert input[0..] == input;
    var tok, pos := NextToken(input, 0, toks, 0);
    components[0] := ConvertStrWithCheck(tok);
    ConversionsSnoc(toks, 0);
    for i := 1 to TimeComponents
      invariant 0 <= pos <= |input|
      invariant Tokens(input[pos..]) == Remaining(toks, i)
      invariant components[..i] == Conversions(toks, i)
    {
      tok, pos := NextToken(input, pos, toks, i);
      ghost var done := components[..i];
      var converted := ConvertStrWithCheck(tok);
      components[i] := converted;
      assert components[..i + 1] == done + [converted];
      ConversionsSnoc(toks, i);
    }
    assert components[..] == components[..TimeComponents];
    t := FieldsOf(components[..]);
  }

  /** The i-th strtok call of parse_time, from the position the previous call left. */
  method NextToken(input: string, pos: nat, ghost toks: seq<string>, ghost i: nat) returns (tok: Option<string>, next: nat)
    requires pos <= |input| && Tokens(input[pos..]) == Remaining(toks, i)
    ensures next <= |input| && Tokens(input[next..]) == Remaining(toks, i + 1)
    ensures tok == TokenAt(toks, i)
  {
    tok, next := Strtok(input, pos);
    StrtokAdvances(toks, i, tok, Tokens(input[next..]));
  }

  /** A token strtok no longer finds converts to the sentinel -1. */
  lemma MissingTokenIsSentinel(s: string, k: nat)
    requires |Tokens(s)| <= k < TimeComponents
    ensures Components(s)[k] == -1
  {
  }

  /** Only the first six tokens matter: texts that agree on them parse alike. */
  lemma LaterTokensIgnored(s: string, t: string)
    requires |Tokens(s)| >= TimeComponents && |Tokens(t)| >= TimeComponents
    requires Tokens(s)[..TimeComponents] == Tokens(t)[..TimeComponents]
    ensures ParsedTime(s) == ParsedTime(t)
  {
    var a, b := Tokens(s), Tokens(t);
    forall k | 0 <= k < TimeComponents
      ensures TokenAt(a, k) == TokenAt(b, k)
    {
      assert a[k] == a[..TimeComponents][k];
      assert b[k] == b[..TimeComponents][k];
    }
    assert Components(s) == Components(t);
  }

  /** A parsed tm has no negative field exactly when all six components lay in range. */
  lemma ParsedTimeNonNegative(s: string)
    ensures var t := ParsedTime(s);
      (t.year >= 0 && t.mon >= 0 && t.mday >= 0 && t.hour >= 0 && t.min >= 0 && t.sec >= 0)
      <==>
      var c := Components(s);
      2020 < c[0] < 10000 && 0 < c[1] < 13 && 0 < c[2] < 32 && 0 <= c[3] < 24 && 0 <= c[4] < 60 && 0 <= c[5] < 60
  {
  }

  // -------------------------------------------- the recommended input format

  /** Each field followed by its separator: fields[0] + [separators[0]] + fields[1] + ... */
  function Layout(fields: seq<string>, separators: string): string
    requires |fields| == |separators|
  {
    if fields == [] then [] else fields[0] + [separators[0]] + Layout(fields[1..], separators[1..])
  }

  /** The separators of "yyyy-mm-dd hh:mm:ss\n", the ISO 8601 form parse_time recommends. */
  const IsoSeparators: string := "-- ::\n"

  /** The six zero-padded digit groups of "yyyy-mm-dd hh:mm:ss". */
  function IsoFields(y: nat, mo: nat, d: nat, h: nat, mi: nat, se: nat): (fields: seq<string>)
    requires y < 10000 && mo < 100 && d < 100 && h < 100 && mi < 100 && se < 100
    ensures |fields| == TimeComponents
  {
    assert Pow10(2) == 100 && Pow10(4) == 10000;
    [Padded(y, 4), Padded(mo, 2), Padded(d, 2), Padded(h, 2), Padded(mi, 2), Padded(se, 2)]
  }

  /** "yyyy-mm-dd hh:mm:ss\n" for the given numbers, as fgets delivers it. */
  function IsoText(y: nat, mo: nat, d: nat, h: nat, mi: nat, se: nat): string
    requires y < 10000 && mo < 100 && d < 100 && h < 100 && mi < 100 && se < 100
  {
    Layout(IsoFields(y, mo, d, h, mi, se), IsoSeparators)
  }

  lemma DigitsAreToken(s: string)
    requires |s| > 0 && AllDigits(s)
    ensures IsToken(s)
  {
  }

  /** Tokens separated by delimiters are read back as exactly those tokens. */
  lemma {:induction false} LayoutTokens(fields: seq<string>, separators: string)
    requires |fields| == |separators|
    requires forall i :: 0 <= i < |fields| ==> IsToken(fields[i]) && IsDelimiter(separators[i])
    ensures Tokens(Layout(fields, separators)) == fields
    decreases |fields|
  {
    if fields != [] {
      LayoutTokens(fields[1..], separators[1..]);
      TokensOfTokenThenDelimiter(fields[0], separators[0], Layout(fields[1..], separators[1..]));
      assert [fields[0]] + fields[1..] == fields;
    }
  }

  /** Components of a text with exactly six tokens are their six conversions. */
  lemma ComponentsOfSixTokens(s: string)
    requires |Tokens(s)| == 6
    ensures var t := Tokens(s);
      Components(s) == [Converted(Some(t[0])), Converted(Some(t[1])), Converted(Some(t[2])),
                        Converted(Some(t[3])), Converted(Some(t[4])), Converted(Some(t[5]))]
  {
  }

  /** A zero-padded group of 2 to 4 digits converts to its number. */
  lemma ConvertedPadded(n: nat, w: nat)
    requires 2 <= w <= 4 && n < Pow10(w)
    ensures Converted(Some(Padded(n, w))) == n
  {
  }

  /** The recommended format yields exactly its six numbers as components. */
  lemma IsoTextTokens(y: nat, mo: nat, d: nat, h: nat, mi: nat, se: nat)
    requires y < 10000 && mo < 100 && d < 100 && h < 100 && mi < 100 && se < 100
    ensures Tokens(IsoText(y, mo, d, h, mi, se)) == IsoFields(y, mo, d, h, mi, se)
  {
    var fields := IsoFields(y, mo, d, h, mi, se);
    assert Pow10(2) == 100 && Pow10(4) == 10000;
    forall i | 0 <= i < |fields|
      ensures IsToken(fields[i]) && IsDelimiter(IsoSeparators[i])
    {
      var n, w := [y, mo, d, h, mi, se][i], if i == 0 then 4 else 2;
      assert fields[i] == Padded(n, w);
      DigitsAreToken(Padded(n, w));
    }
    LayoutTokens(fields, IsoSeparators);
  }

  lemma IsoTextComponents(y: nat, mo: nat, d: nat, h: nat, mi: nat, se: nat)
    requires y < 10000 && mo < 100 && d < 100 && h < 100 && mi < 100 && se < 100
    ensures Components(IsoText(y, mo, d, h, mi, se)) == [y, mo, d, h, mi, se]
  {
    assert Pow10(2) == 100 && Pow10(4) == 10000;
    IsoTextTokens(y, mo, d, h, mi, se);
    ComponentsOfSixTokens(IsoText(y, mo, d, h, mi, se));
    ConvertedPadded(y, 4);
    ConvertedPadded(mo, 2);
    ConvertedPadded(d, 2);
    ConvertedPadded(h, 2);
    ConvertedPadded(mi, 2);
    ConvertedPadded(se, 2);
  }

  /** A valid date in the recommended format parses to the corresponding tm. */
  lemma ParseValidIsoText(y: nat, mo: nat, d: nat, h: nat, mi: nat, se: nat)
    requires 2020 < y < 10000 && 1 <= mo <= 12 && 1 <= d <= 31 && h < 24 && mi < 60 && se < 60
    ensures ParsedTime(IsoText(y, mo, d, h, mi, se)) == Tm(y - 1900, mo - 1, d, h, mi, se, -1)
  {
    IsoTextComponents(y, mo, d, h, mi, se);
  }

  /** The year 2020 itself is out of range: "2020-01-01 00:00:00" gets the year sentinel. */
  lemma Year2020Rejected()
    ensures ParsedTime(IsoText(2020, 1, 1, 0, 0, 0)).year == -1
  {
    IsoTextComponents(2020, 1, 1, 0, 0, 0);
  }

  /** A single unpadded digit is not converted: "5" gives -1, "05" gives 5. */
  lemma SingleDigitNeedsPadding(c: char)
    requires IsDigit(c)
    ensures Converted(Some([c])) == -1
    ensures Converted(Some(['0', c])) == DigitValue(c)
  {
    var s := ['0', c];
    assert s[..1] == ['0'];
    assert ['0'][..0] == [];
    assert DecimalValue(['0']) == 0;
  }
}
