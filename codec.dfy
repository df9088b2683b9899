/**
  The line codec of planner.c: saveList writes one "%ld,%s\n" line per
  appointment; readList reads the file back with fgets into a 256-byte
  buffer, parses each piece with sscanf("%ld,%[^\n]"), appends the entries
  that lie after the current time in file order, counts the expired ones and
  flags the pieces that do not yield two fields.

  The file is its content as a string; the current time `now` is a parameter.
 */
module Codec {
  import opened Wrappers
  import opened Numerals
  import opened Planner

  /** The size of readList's line buffer: one fgets call reads at most 255 characters. */
  const LineBufferSize: nat := 256

  /** The pieces of a file, one after the other. */
  function Concat(pieces: seq<string>): string {
    if pieces == [] then "" else pieces[0] + Concat(pieces[1..])
  }

  lemma {:induction false} ConcatSnoc(pieces: seq<string>, x: string)
    ensures Concat(pieces + [x]) == Concat(pieces) + x
    decreases |pieces|
  {
    if pieces == [] {
      assert pieces + [x] == [x];
      assert Concat([x]) == x + Concat([]);
    } else {
      var all := pieces + [x];
      assert all[0] == pieces[0];
      assert all[1..] == pieces[1..] + [x];
      ConcatSnoc(pieces[1..], x);
      calc {
        Concat(all);
        all[0] + Concat(all[1..]);
        pieces[0] + (Concat(pieces[1..]) + x);
        (pieces[0] + Concat(pieces[1..])) + x;
      }
    }
  }

  // ----------------------------------------------------------------- saving

  /** The line saveList writes for one appointment with "%ld,%s\n". */
  function FormatLine(a: Appointment): (line: string)
    ensures |line| >= 3 && line[|line| - 1] == '\n'
  {
    LongToText(a.start) + "," + a.description + "\n"
  }

  function Lines(s: seq<Appointment>): (lines: seq<string>)
    ensures |lines| == |s|
  {
    seq(|s|, i requires 0 <= i < |s| => FormatLine(s[i]))
  }

  /** The file saveList writes: the lines of the appointments in list order. */
  function Serialize(s: seq<Appointment>): (file: string)
    ensures file == [] <==> s == []
  {
    Concat(Lines(s))
  }

  lemma SerializePrefix(s: seq<Appointment>, k: nat)
    requires k < |s|
    ensures Serialize(s[..k + 1]) == Serialize(s[..k]) + FormatLine(s[k])
  {
    assert Lines(s[..k + 1]) == Lines(s[..k]) + [FormatLine(s[k])];
    ConcatSnoc(Lines(s[..k]), FormatLine(s[k]));
  }

  /** saveList: walk the list from head to tail and write each appointment's line. */
  method SaveList(list: List) returns (file: string)
    requires list.Valid()
    ensures file == Serialize(list.Contents)
  {
    file := "";
    var current := list.head;
    ghost var k := 0;
    while current != null
      invariant 0 <= k <= |list.Nodes|
      invariant current == (if k < |list.Nodes| then list.Nodes[k] else null)
      invariant file == Serialize(list.Contents[..k])
      decreases |list.Nodes| - k
    {
      var appointment := current.appointment;
      SerializePrefix(list.Contents, k);
      file := file + FormatLine(appointment);
      current := current.next;
      k := k + 1;
    }
    assert list.Contents[..k] == list.Contents;
  }

  // ---------------------------------------------------------------- reading

  predicate IsNotNewline(c: char) {
    c != '\n'
  }

  /**
    How many characters one fgets(line, 256, file) call takes from the rest of
    the file: up to and including the next newline, but at most 255.
   */
  function ChunkLength(rest: string): (n: nat)
    requires rest != []
    ensures 0 < n <= |rest| && n < LineBufferSize
  {
    var e := SpanEnd(rest, 0, IsNotNewline);
    var upTo := if e < |rest| then e + 1 else e;
    if upTo < LineBufferSize - 1 then upTo else LineBufferSize - 1
  }

  /** The successive strings fgets(line, 256, file) delivers for a file's content. */
  function FgetsLines(content: string): (lines: seq<string>)
    ensures forall i :: 0 <= i < |lines| ==> 0 < |lines[i]| < LineBufferSize
    decreases |content|
  {
    if content == [] then []
    else
      var n := ChunkLength(content);
      [content[..n]] + FgetsLines(content[n..])
  }

  /** fgets loses nothing: the pieces it delivers make up the whole file. */
  lemma {:induction false} FgetsLinesCoverFile(content: string)
    ensures Concat(FgetsLines(content)) == content
    decreases |content|
  {
    if content != [] {
      var n := ChunkLength(content);
      var lines := FgetsLines(content);
      FgetsLinesCoverFile(content[n..]);
      assert lines[0] == content[..n];
      assert lines[1..] == FgetsLines(content[n..]);
      assert content[..n] + content[n..] == content;
    }
  }

  /** A line one fgets call delivers whole: it fits the buffer and ends in its only newline. */
  predicate Terminated(line: string) {
    0 < |line| < LineBufferSize && line[|line| - 1] == '\n' &&
    forall i :: 0 <= i < |line| - 1 ==> line[i] != '\n'
  }

  lemma FgetsOneLine(line: string, rest: string)
    requires Terminated(line)
    ensures FgetsLines(line + rest) == [line] + FgetsLines(rest)
  {
    var content := line + rest;
    assert forall k :: 0 <= k < |line| - 1 ==> content[k] == line[k];
    assert content[|line| - 1] == '\n';
    SpanEndUnique(content, 0, IsNotNewline, |line| - 1);
    assert ChunkLength(content) == |line|;
    assert content[..|line|] == line;
    assert content[|line|..] == rest;
  }

  /** A file made of whole lines is read back line by line. */
  lemma {:induction false} FgetsWholeLines(lines: seq<string>)
    requires forall i :: 0 <= i < |lines| ==> Terminated(lines[i])
    ensures FgetsLines(Concat(lines)) == lines
    decreases |lines|
  {
    if lines != [] {
      FgetsOneLine(lines[0], Concat(lines[1..]));
      FgetsWholeLines(lines[1..]);
      assert [lines[0]] + lines[1..] == lines;
    }
  }

  /**
    What sscanf(line, "%ld,%[^\n]", &start, description) == 2 accepts, and the
    two values it stores: optional white space, an optional sign, at least one
    digit (an out-of-range value saturates, as strtol does), a comma, then at
    least one character other than a newline, up to the newline or the end.
   */
  function ParseLine(line: string): (r: Option<(Long, string)>)
    ensures r.Some? ==> |r.value.1| > 0 && NoNewline(r.value.1)
  {
    var i := SpanEnd(line, 0, IsSpace);
    if i < |line| && (line[i] == '-' || line[i] == '+') then ParseNumber(line, i + 1, line[i] == '-')
    else ParseNumber(line, i, false)
  }

  /** The digits of "%ld" from index j, then the comma, then the "%[^\n]" field. */
  function ParseNumber(line: string, j: nat, negative: bool): (r: Option<(Long, string)>)
    requires j <= |line|
    ensures r.Some? ==> |r.value.1| > 0 && NoNewline(r.value.1)
  {
    var k := SpanEnd(line, j, IsDigit);
    if k == j || k == |line| || line[k] != ',' then None
    else ParseDescription(line, k + 1, Signed(negative, DecimalValue(line[j..k])))
  }

  /** "%[^\n]" from index from: at least one character, up to the newline or the end. */
  function ParseDescription(line: string, from: nat, start: Long): (r: Option<(Long, string)>)
    requires from <= |line|
    ensures r.Some? ==> r.value.0 == start && |r.value.1| > 0 && NoNewline(r.value.1)
  {
    var e := SpanEnd(line, from, IsNotNewline);
    if e == from then None else Some((start, line[from..e]))
  }

  /** The long strtol makes of a sign and a magnitude, saturating at the bounds. */
  function Signed(negative: bool, magnitude: nat): Long {
    ClampLong(if negative then -(magnitude as int) else magnitude)
  }

  predicate NoNewline(s: string) {
    forall i :: 0 <= i < |s| ==> s[i] != '\n'
  }

  lemma SliceOfFront<T>(a: seq<T>, b: seq<T>, i: nat, j: nat)
    requires i <= j <= |a|
    ensures (a + b)[i..j] == a[i..j]
  {
  }

  lemma ParseDescriptionUpTo(line: string, from: nat, e: nat, start: Long)
    requires from <= e < |line| && line[e] == '\n' && NoNewline(line[from..e])
    ensures ParseDescription(line, from, start) == if e == from then None else Some((start, line[from..e]))
  {
    assert forall m :: from <= m < e ==> line[m] == line[from..e][m - from];
    SpanEndUnique(line, from, IsNotNewline, e);
  }

  /** No leading white space: the number starts after the sign, if any. */
  lemma ParseLineFromNumber(line: string, j: nat)
    requires j <= 1 && j < |line|
    requires j == 1 ==> line[0] == '-'
    requires j == 0 ==> IsDigit(line[0])
    ensures ParseLine(line) == ParseNumber(line, j, j == 1)
  {
    SpanEndUnique(line, 0, IsSpace, 0);
  }

  lemma ParseNumberUpTo(line: string, j: nat, k: nat, negative: bool)
    requires j < k < |line| && AllDigits(line[j..k]) && line[k] == ','
    ensures ParseNumber(line, j, negative) == ParseDescription(line, k + 1, Signed(negative, DecimalValue(line[j..k])))
  {
    assert forall m :: j <= m < k ==> line[m] == line[j..k][m - j];
    SpanEndUnique(line, j, IsDigit, k);
  }

  /**
    sscanf on a line laid out as an optional minus sign (j is 0 or 1), the
    digits up to k, a comma, a description up to e and a newline.
   */
  lemma ParseLaidOutLine(line: string, j: nat, k: nat, e: nat, digits: string, description: string)
    requires j <= 1 && j < k < e < |line| && e >= k + 1
    requires j == 1 ==> line[0] == '-'
    requires j == 0 ==> IsDigit(line[0])
    requires line[j..k] == digits && AllDigits(digits)
    requires line[k] == ','
    requires line[k + 1..e] == description && NoNewline(description)
    requires line[e] == '\n'
    ensures ParseLine(line) == if description == [] then None else Some((Signed(j == 1, DecimalValue(digits)), description))
  {
    ParseLineFromNumber(line, j);
    ParseNumberUpTo(line, j, k, j == 1);
    ParseDescriptionUpTo(line, k + 1, e, Signed(j == 1, DecimalValue(digits)));
  }

  /** sscanf on an optional minus sign, digits, a comma, a description and a newline. */
  lemma ParseSignedLine(sign: string, digits: string, number: string, description: string)
    requires sign == "" || sign == "-"
    requires |digits| > 0 && AllDigits(digits)
    requires number == sign + digits
    requires NoNewline(description)
    ensures ParseLine(number + "," + description + "\n")
      == if description == [] then None else Some((Signed(sign == "-", DecimalValue(digits)), description))
  {
    var front := number + ",";
    var line := front + description + "\n";
    var j, k := |sign|, |number|;
    var e := |front| + |description|;
    SliceOfFront(front + description, "\n", j, k);
    SliceOfFront(front, description, j, k);
    SliceOfFront(number, ",", j, k);
    assert number[j..k] == digits;
    SliceOfFront(front + description, "\n", |front|, e);
    assert (front + description)[|front|..e] == description;
    assert line[0] == number[0];
    assert line[k] == ',';
    assert line[e] == '\n';
    assert line[j..k] == digits;
    assert line[k + 1..e] == description;
    assert (j == 1) == (sign == "-");
    ParseLaidOutLine(line, j, k, e, digits, description);
  }

  /**
    A line saveList wrote for a newline-free description parses back to that
    appointment, except that "%[^\n]" needs at least one character: an empty
    description is written but read back as damaged.
   */
  lemma ParseFormattedLine(a: Appointment)
    requires NoNewline(a.description)
    ensures ParseLine(FormatLine(a)) == if a.description == [] then None else Some((a.start, a.description))
  {
    if a.start < 0 {
      ParseNegativeLine(a);
    } else {
      ParseNonNegativeLine(a);
    }
  }

  lemma ParseNegativeLine(a: Appointment)
    requires a.start < 0 && NoNewline(a.description)
    ensures ParseLine(FormatLine(a)) == if a.description == [] then None else Some((a.start, a.description))
  {
    ParseSignedLine("-", NatDigits(-(a.start as int)), LongToText(a.start), a.description);
  }

  lemma ParseNonNegativeLine(a: Appointment)
    requires a.start >= 0 && NoNewline(a.description)
    ensures ParseLine(FormatLine(a)) == if a.description == [] then None else Some((a.start, a.description))
  {
    assert LongToText(a.start) == "" + NatDigits(a.start);
    ParseSignedLine("", NatDigits(a.start), LongToText(a.start), a.description);
  }

  /**
    A number beyond the `long` range is stored as the bound on its side, as
    glibc's `%ld` saturates.
   */
  lemma ParseSaturates(sign: string, digits: string, description: string)
    requires sign == "" || sign == "-"
    requires |digits| > 0 && AllDigits(digits) && DecimalValue(digits) > LongMax
    requires description != [] && NoNewline(description)
    ensures ParseLine(sign + digits + "," + description + "\n")
      == Some((if sign == "-" then LongMin else LongMax, description))
  {
    ParseSignedLine(sign, digits, sign + digits, description);
  }

  // ---------------------------------------------------------------- loading

  /** What readList has after some lines: the appended entries, the expired count, the damaged flag. */
  datatype LoadResult = LoadResult(kept: seq<Appointment>, skipped: nat, damaged: bool)

  /** One iteration of readList's loop. */
  function LoadStep(r: LoadResult, line: string, now: Long): LoadResult {
    match ParseLine(line)
    case None => r.(damaged := true)
    case Some((start, description)) =>
      if start > now then r.(kept := r.kept + [Appointment(start, description)])
      else r.(skipped := r.skipped + 1)
  }

  /** readList's loop over the lines in file order, from an empty list. */
  function Load(lines: seq<string>, now: Long): LoadResult {
    if lines == [] then LoadResult([], 0, false)
    else LoadStep(Load(lines[..|lines| - 1], now), lines[|lines| - 1], now)
  }

  /**
    One iteration keeps what was appended so far; it accounts for the line
    (appended or skipped) exactly when the line parses; it sets the damaged
    flag exactly when the line does not parse.
   */
  lemma LoadStepEffect(r: LoadResult, line: string, now: Long)
    ensures var r' := LoadStep(r, line, now);
      && |r.kept| <= |r'.kept| && r'.kept[..|r.kept|] == r.kept
      && |r'.kept| + r'.skipped == |r.kept| + r.skipped + (if ParseLine(line).Some? then 1 else 0)
      && (r'.damaged <==> r.damaged || ParseLine(line).None?)
  {
  }

  /** Every line is kept, skipped or unparsable, so kept plus skipped never exceeds the lines read. */
  lemma {:induction false} LoadBounds(lines: seq<string>, now: Long)
    ensures |Load(lines, now).kept| + Load(lines, now).skipped <= |lines|
    ensures Load(lines, now).damaged ==> lines != []
  {
    if lines != [] {
      LoadBounds(lines[..|lines| - 1], now);
      LoadStepEffect(Load(lines[..|lines| - 1], now), lines[|lines| - 1], now);
    }
  }

  lemma LoadSnoc(lines: seq<string>, line: string, now: Long)
    ensures Load(lines + [line], now) == LoadStep(Load(lines, now), line, now)
  {
    assert (lines + [line])[..|lines|] == lines;
  }

  lemma LoadPrefix(lines: seq<string>, i: nat, now: Long)
    requires i < |lines|
    ensures Load(lines[..i + 1], now) == LoadStep(Load(lines[..i], now), lines[i], now)
  {
    assert lines[..i + 1][..i] == lines[..i];
  }

  /**
    readList: a fresh list holding the entries Load keeps, appended in file
    order, with Load's expired count and damaged flag.
   */
  method ReadList(content: string, now: Long) returns (list: List, skipped: nat, damaged: bool)
    ensures fresh(list) && fresh(list.Repr) && list.Valid()
    ensures Load(FgetsLines(content), now) == LoadResult(list.Contents, skipped, damaged)
  {
    list := new List();
    skipped := 0;
    damaged := false;
    var lines := FgetsLines(content);
    var i := 0;
    while i < |lines|
      invariant 0 <= i <= |lines|
      invariant fresh(list) && fresh(list.Repr) && list.Valid()
      invariant Load(lines[..i], now) == LoadResult(list.Contents, skipped, damaged)
    {
      LoadPrefix(lines, i, now);
      skipped, damaged := LoadLine(list, lines[i], now, skipped, damaged);
      i := i + 1;
    }
    assert lines[..i] == lines;
  }

  /** The body of readList's loop: parse one line and append, count or flag it. */
  method LoadLine(list: List, line: string, now: Long, skipped: nat, damaged: bool)
      returns (skipped': nat, damaged': bool)
    requires list.Valid()
    modifies list.Repr
    ensures list.Valid() && fresh(list.Repr - old(list.Repr))
    ensures LoadResult(list.Contents, skipped', damaged') == LoadStep(LoadResult(old(list.Contents), skipped, damaged), line, now)
  {
    skipped', damaged' := skipped, damaged;
    var parsed := ParseLine(line);
    if parsed.None? {
      damaged' := true;
    } else if parsed.value.0 > now {
      list.AddAppointment(Appointment(parsed.value.0, parsed.value.1));
    } else {
      skipped' := skipped + 1;
    }
  }

  // --------------------------------------------------- what loading means

  /** The entries of the lines that parse, in file order. */
  function Parsed(lines: seq<string>): seq<Appointment> {
    if lines == [] then []
    else
      var rest := Parsed(lines[..|lines| - 1]);
      match ParseLine(lines[|lines| - 1])
      case None => rest
      case Some((start, description)) => rest + [Appointment(start, description)]
  }

  /** The entries of s that start after now, in order. */
  function Upcoming(s: seq<Appointment>, now: Long): (r: seq<Appointment>)
    ensures forall x :: x in r <==> x in s && x.start > now
    ensures |r| <= |s|
  {
    if s == [] then []
    else
      var rest := Upcoming(s[..|s| - 1], now);
      assert s == s[..|s| - 1] + [s[|s| - 1]];
      if s[|s| - 1].start > now then rest + [s[|s| - 1]] else rest
  }

  /** A line that does not yield the two fields. */
  predicate Unparsable(line: string) {
    ParseLine(line).None?
  }

  /** Some line satisfies f. */
  predicate SomeLine(lines: seq<string>, f: string -> bool) {
    exists i :: 0 <= i < |lines| && f(lines[i])
  }

  lemma SomeLineSnoc(lines: seq<string>, f: string -> bool)
    requires lines != []
    ensures SomeLine(lines, f) <==> SomeLine(lines[..|lines| - 1], f) || f(lines[|lines| - 1])
  {
    var init := lines[..|lines| - 1];
    if SomeLine(init, f) {
      var i :| 0 <= i < |init| && f(init[i]);
      assert lines[i] == init[i];
    }
    if SomeLine(lines, f) {
      var i :| 0 <= i < |lines| && f(lines[i]);
      if i < |init| {
        assert init[i] == lines[i];
      }
    }
  }

  /**
    readList keeps exactly the parsed entries that start after now, in file
    order; it counts every other parsed entry as skipped; it flags the file
    as damaged exactly when some line does not parse.
   */
  lemma {:induction false} LoadIsUpcomingParsed(lines: seq<string>, now: Long)
    ensures Load(lines, now).kept == Upcoming(Parsed(lines), now)
    ensures Load(lines, now).skipped == |Parsed(lines)| - |Upcoming(Parsed(lines), now)|
    ensures Load(lines, now).damaged <==> SomeLine(lines, Unparsable)
  {
    if lines != [] {
      var init := lines[..|lines| - 1];
      LoadIsUpcomingParsed(init, now);
      SomeLineSnoc(lines, Unparsable);
      var p := Parsed(init);
      match ParseLine(lines[|lines| - 1])
      case None =>
      case Some((start, description)) =>
        var x := Appointment(start, description);
        assert (p + [x])[..|p|] == p;
    }
  }

  function Combine(r1: LoadResult, r2: LoadResult): LoadResult {
    LoadResult(r1.kept + r2.kept, r1.skipped + r2.skipped, r1.damaged || r2.damaged)
  }

  lemma LoadStepCombine(r1: LoadResult, r2: LoadResult, line: string, now: Long)
    ensures LoadStep(Combine(r1, r2), line, now) == Combine(r1, LoadStep(r2, line, now))
  {
    match ParseLine(line)
    case None =>
    case Some((start, description)) =>
      var x := Appointment(start, description);
      assert r1.kept + r2.kept + [x] == r1.kept + (r2.kept + [x]);
  }

  /** Loading two stretches of a file one after the other is loading each and joining the results. */
  lemma {:induction false} LoadConcat(l1: seq<string>, l2: seq<string>, now: Long)
    ensures Load(l1 + l2, now) == Combine(Load(l1, now), Load(l2, now))
    decreases |l2|
  {
    if l2 == [] {
      assert l1 + l2 == l1;
      var r := Load(l1, now);
      assert r.kept + [] == r.kept;
    } else {
      var l := l1 + l2;
      var init, last := l2[..|l2| - 1], l2[|l2| - 1];
      assert l == (l1 + init) + [last] && l2 == init + [last];
      LoadSnoc(l1 + init, last, now);
      LoadSnoc(init, last, now);
      LoadConcat(l1, init, now);
      LoadStepCombine(Load(l1, now), Load(init, now), last, now);
      calc {
        Load(l, now);
        LoadStep(Load(l1 + init, now), last, now);
        LoadStep(Combine(Load(l1, now), Load(init, now)), last, now);
        Combine(Load(l1, now), LoadStep(Load(init, now), last, now));
        Combine(Load(l1, now), Load(l2, now));
      }
    }
  }

  /** One unparsable line among others only sets the damaged flag. */
  lemma DamagedLineIsTolerated(before: seq<string>, bad: string, after: seq<string>, now: Long)
    requires ParseLine(bad).None?
    ensures var r := Load(before + [bad] + after, now);
      var good := Load(before + after, now);
      r.kept == good.kept && r.skipped == good.skipped && r.damaged
  {
    LoadConcat(before + [bad], after, now);
    LoadConcat(before, [bad], now);
    LoadConcat(before, after, now);
    assert [bad][..0] == [];
    var b := Load(before, now);
    assert b.kept + [] == b.kept;
  }

  /** An appointment saveList writes a line for that readList takes back whole. */
  predicate Storable(a: Appointment) {
    && a.description != [] && NoNewline(a.description) && |FormatLine(a)| < LineBufferSize
    && forall i :: 0 <= i < |a.description| ==> a.description[i] < 128 as char
  }

  lemma FormatLineTerminated(a: Appointment)
    requires NoNewline(a.description) && |FormatLine(a)| < LineBufferSize
    ensures Terminated(FormatLine(a))
  {
    var line := FormatLine(a);
    var text := LongToText(a.start);
    forall i | 0 <= i < |line| - 1
      ensures line[i] != '\n'
    {
      if i < |text| {
        assert line[i] == text[i];
      } else if i > |text| {
        assert line[i] == a.description[i - |text| - 1];
      }
    }
  }

  lemma {:induction false} LoadFormattedLines(s: seq<Appointment>, now: Long)
    requires forall i :: 0 <= i < |s| ==> Storable(s[i]) && s[i].start > now
    ensures Load(Lines(s), now) == LoadResult(s, 0, false)
  {
    if s != [] {
      var init := s[..|s| - 1];
      var last := s[|s| - 1];
      assert s == init + [last];
      assert Lines(s) == Lines(init) + [FormatLine(last)];
      assert Storable(last) && last.start > now;
      LoadFormattedLines(init, now);
      LoadSnoc(Lines(init), FormatLine(last), now);
      LoadFormattedLine(LoadResult(init, 0, false), last, now);
    }
  }

  /** Loading a line written for a storable future entry appends that entry. */
  lemma LoadFormattedLine(r: LoadResult, a: Appointment, now: Long)
    requires a.description != [] && NoNewline(a.description) && a.start > now
    ensures LoadStep(r, FormatLine(a), now) == r.(kept := r.kept + [a])
  {
    ParseFormattedLine(a);
  }

  /**
    Round trip: for appointments after now, each with a non-empty description
    free of newlines and a line that fits the 256-byte buffer, reading back
    what saveList wrote gives the same appointments in the same order, with
    nothing skipped and no damage.
   */
  lemma SaveThenReadRoundTrip(s: seq<Appointment>, now: Long)
    requires forall i :: 0 <= i < |s| ==> Storable(s[i]) && s[i].start > now
    ensures Load(FgetsLines(Serialize(s)), now) == LoadResult(s, 0, false)
  {
    forall i | 0 <= i < |s|
      ensures Terminated(Lines(s)[i])
    {
      FormatLineTerminated(s[i]);
    }
    FgetsWholeLines(Lines(s));
    LoadFormattedLines(s, now);
  }
}
