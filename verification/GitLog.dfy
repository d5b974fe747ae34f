/** git_log.py `parse_log`, as the inverse of the log format it asks git for. */
module GitLog {
  import opened Collections
  import opened PathQuoting
  import opened Wrappers

  const RS: char := '\U{1e}'
  const US: char := '\U{1f}'

  /** Counts are None for binary files. */
  datatype FileChange = FileChange(path: Bytes, added: Option<nat>, deleted: Option<nat>)

  datatype Commit = Commit(sha: string, parents: seq<string>, author: string, timestamp: int, subject: string,
                           files: seq<FileChange>, boundary: bool)

  // ------------------------------------------------------------------ Python's string methods

  predicate IsSpace(c: char) {
    var n := c as int;
    9 <= n <= 13 || 28 <= n <= 32 || n == 0x85 || n == 0xA0 || n == 0x1680 || 0x2000 <= n <= 0x200A ||
    n == 0x2028 || n == 0x2029 || n == 0x202F || n == 0x205F || n == 0x3000
  }

  predicate IsBreak(c: char) {
    var n := c as int;
    10 <= n <= 13 || 28 <= n <= 30 || n == 0x85 || n == 0x2028 || n == 0x2029
  }

  /** A class of characters; Separator holds those a header field must not contain. */
  datatype Class = One(c: char) | Space | Break | Separator {
    predicate Has(x: char) {
      match this
      case One(c) => x == c
      case Space => IsSpace(x)
      case Break => IsBreak(x)
      case Separator => x == RS || x == US || x == '\n'
    }
  }

  /** No character of the string is in the class. */
  predicate Free(s: string, k: Class) {
    forall i | 0 <= i < |s| :: !k.Has(s[i])
  }

  /** The position of the first character of the class, or the length. */
  function First(s: string, k: Class): (at: nat)
    ensures at <= |s| && (at < |s| ==> k.Has(s[at])) && forall i | 0 <= i < at :: !k.Has(s[i])
  {
    if s == "" || k.Has(s[0]) then 0 else 1 + First(s[1..], k)
  }

  /** `s.split(sep)` for a one-character separator. */
  function Split(s: string, sep: char): (r: seq<string>)
    ensures r != []
    decreases |s|
  {
    var at := First(s, One(sep));
    if at == |s| then [s] else [s[..at]] + Split(s[at + 1..], sep)
  }

  /** `header, _, body = s.partition("\n")` */
  function Partition(s: string): (string, string) {
    var at := First(s, One('\n'));
    if at == |s| then (s, "") else (s[..at], s[at + 1..])
  }

  /** Whether `s.strip()` is empty. */
  predicate Blank(s: string) {
    forall i | 0 <= i < |s| :: IsSpace(s[i])
  }

  function Strip(s: string): string {
    if s == "" then ""
    else if IsSpace(s[0]) then Strip(s[1..])
    else if IsSpace(s[|s| - 1]) then Strip(s[..|s| - 1])
    else s
  }

  /** `s.split()`: the stretches without spaces. */
  function Words(s: string): seq<string>
    decreases |s|
  {
    if s == "" then []
    else if IsSpace(s[0]) then Words(s[1..])
    else var at := First(s, Space); [s[..at]] + Words(s[at..])
  }

  /** `s.splitlines()`: a break ends a line, "\r\n" is one break, and nothing follows a final break. */
  function Lines(s: string): seq<string>
    decreases |s|
  {
    if s == "" then [] else
      var at := First(s, Break);
      if at == |s| then [s]
      else [s[..at]] + Lines(if s[at] == '\r' && at + 1 < |s| && s[at + 1] == '\n' then s[at + 2..] else s[at + 1..])
  }

  predicate IsDigit(c: char) {
    '0' <= c <= '9'
  }

  predicate AllDigits(s: string) {
    s != "" && forall i | 0 <= i < |s| :: IsDigit(s[i])
  }

  /** Digits, with single underscores between them, as `int` reads them. */
  function ParseDigits(s: string): Option<nat>
    decreases |s|
  {
    if s == "" || !IsDigit(s[|s| - 1]) then None else
      var digit, front := s[|s| - 1] as int - '0' as int, s[..|s| - 1];
      if front == "" then Some(digit) else
        match ParseDigits(if front[|front| - 1] == '_' then front[..|front| - 1] else front)
        case None => None
        case Some(n) => Some(10 * n + digit)
  }

  /** `int(s)`, or None for its ValueError. */
  function ParseInt(s: string): Option<int> {
    var t := Strip(s);
    if t == "" then None
    else if t[0] == '-' || t[0] == '+' then
      match ParseDigits(t[1..])
      case None => None
      case Some(n) => Some(if t[0] == '-' then -1 * n else n)
    else
      match ParseDigits(t)
      case None => None
      case Some(n) => Some(n)
  }

  /** `int(s) if s.isdigit() else None` */
  function Count(s: string): Option<nat> {
    if AllDigits(s) then ParseDigits(s) else None
  }

  /** What a loop collects that handles the items in order. */
  function Collected<A, B>(items: seq<A>, handle: A -> seq<B>): seq<B> {
    if items == [] then [] else Collected(items[..|items| - 1], handle) + handle(items[|items| - 1])
  }

  lemma {:induction false} CollectedCons<A, B>(item: A, items: seq<A>, handle: A -> seq<B>)
    ensures Collected([item] + items, handle) == handle(item) + Collected(items, handle)
  {
    if items == [] {
      assert ([item] + items)[..0] == [];
    } else {
      var n := |items| - 1;
      CollectedCons(item, items[..n], handle);
      assert ([item] + items)[..n + 1] == [item] + items[..n];
    }
  }

  // ------------------------------------------------------------------ parsing

  /** What one line of a record's body adds: three columns, or nothing. */
  function ParseLine(line: string): seq<FileChange> {
    var columns := Split(line, '\t');
    if |columns| != 3 then []
    else [FileChange(Unquoted(columns[2]), Count(columns[0]), Count(columns[1]))]
  }

  function ParseLines(lines: seq<string>): seq<FileChange> {
    Collected(lines, ParseLine)
  }

  /** What one record adds: a commit, or nothing if it is blank or malformed. */
  function ParseRecord(record: string, boundary: set<string>, lower: string -> string): seq<Commit> {
    var (header, body) := Partition(record);
    var parts := Split(header, US);
    if Blank(record) || |parts| != 6 then [] else
      match ParseInt(parts[4])
      case None => []
      case Some(time) =>
        [Commit(parts[0], Words(parts[1]), parts[2] + " <" + lower(parts[3]) + ">", time, parts[5],
                ParseLines(Lines(body)), parts[0] in boundary)]
  }

  function RecordParser(boundary: set<string>, lower: string -> string): string -> seq<Commit> {
    record => ParseRecord(record, boundary, lower)
  }

  function ParseRecords(records: seq<string>, boundary: set<string>, lower: string -> string): seq<Commit> {
    Collected(records, RecordParser(boundary, lower))
  }

  /** The inner loop: the file changes of one record. */
  method CollectFiles(body: string) returns (files: seq<FileChange>)
    ensures files == ParseLines(Lines(body))
  {
    files := [];
    var lines := Lines(body);
    for i := 0 to |lines|
      invariant files == ParseLines(lines[..i])
    {
      assert lines[..i + 1][..i] == lines[..i];
      var columns := Split(lines[i], '\t');
      if |columns| != 3 {
        continue;
      }
      var path := UnquotePath(columns[2]);
      files := files + [FileChange(path, Count(columns[0]), Count(columns[1]))];
    }
    assert lines[..|lines|] == lines;
  }

  /** `parse_log`. `lower` stands for `str.lower`. */
  method ParseLog(text: string, boundary: set<string>, lower: string -> string) returns (commits: seq<Commit>)
    ensures commits == ParseRecords(Split(text, RS), boundary, lower)
  {
    commits := [];
    var records := Split(text, RS);
    for i := 0 to |records|
      invariant commits == ParseRecords(records[..i], boundary, lower)
    {
      assert records[..i + 1][..i] == records[..i];
      var record := records[i];
      if Blank(record) {
        continue;
      }
      var (header, body) := Partition(record);
      var parts := Split(header, US);
      if |parts| != 6 {
        continue;
      }
      var time := ParseInt(parts[4]);
      if time == None {
        continue;
      }
      var files := CollectFiles(body);
      commits := commits + [Commit(parts[0], Words(parts[1]), parts[2] + " <" + lower(parts[3]) + ">", time.value,
                                   parts[5], files, parts[0] in boundary)];
    }
    assert records[..|records|] == records;
  }

  // ------------------------------------------------------------------ what git prints

  /** A commit as git knows it; `counts` is None for a binary file. */
  datatype Source = Source(sha: string, parents: seq<string>, name: string, email: string, time: int,
                           subject: string, changes: seq<Change>)
  datatype Change = Change(units: seq<Unit>, counts: Option<(nat, nat)>)

  function Digits(n: nat): (s: string)
    ensures AllDigits(s)
  {
    var last := [('0' as int + n % 10) as char];
    if n < 10 then last else Digits(n / 10) + last
  }

  function Decimal(n: int): string {
    if n < 0 then "-" + Digits(-n) else Digits(n)
  }

  /** The pieces with the separator between them. */
  function Join(pieces: seq<string>, sep: char): string {
    if pieces == [] then "" else if |pieces| == 1 then pieces[0] else pieces[0] + [sep] + Join(pieces[1..], sep)
  }

  /** No character that git leaves as it is ends a line for `str.splitlines`. */
  predicate NoBreaks(units: seq<Unit>) {
    forall i | 0 <= i < |units| :: units[i].Raw? ==> !IsBreak(units[i].c)
  }

  predicate ValidChange(c: Change) {
    ValidUnits(c.units)
  }

  predicate Unbroken(changes: seq<Change>) {
    forall i | 0 <= i < |changes| :: NoBreaks(changes[i].units)
  }

  function Counts(c: Change): (string, string) {
    match c.counts case None => ("-", "-") case Some((added, deleted)) => (Digits(added), Digits(deleted))
  }

  function ChangeLine(c: Change): string
    requires ValidChange(c)
  {
    Join([Counts(c).0, Counts(c).1, GitPath(c.units)], '\t')
  }

  function ChangeLines(changes: seq<Change>): string
    requires forall i | 0 <= i < |changes| :: ValidChange(changes[i])
  {
    if changes == [] then "" else ChangeLine(changes[0]) + ['\n'] + ChangeLines(changes[1..])
  }

  predicate ValidSource(s: Source) {
    && Free(s.sha, Separator) && Free(s.name, Separator) && Free(s.email, Separator) && Free(s.subject, Separator)
    && s.sha != "" && Free(s.sha, Space)
    && (forall i | 0 <= i < |s.parents| :: s.parents[i] != "" && Free(s.parents[i], Space))
    && (forall i | 0 <= i < |s.changes| :: ValidChange(s.changes[i]))
  }

  function HeaderFields(s: Source): seq<string> {
    [s.sha, Join(s.parents, ' '), s.name, s.email, Decimal(s.time), s.subject]
  }

  function Header(s: Source): string {
    Join(HeaderFields(s), US)
  }

  /** What follows a record's first line break: nothing, or an empty line and a line for each change. */
  function Body(changes: seq<Change>): string
    requires forall i | 0 <= i < |changes| :: ValidChange(changes[i])
  {
    if changes == [] then "" else [] + ['\n'] + ChangeLines(changes)
  }

  /** One record: the header line and the body. */
  function Record(s: Source): string
    requires ValidSource(s)
  {
    Header(s) + ['\n'] + Body(s.changes)
  }

  function PrintLog(log: seq<Source>): string
    requires forall i | 0 <= i < |log| :: ValidSource(log[i])
  {
    if log == [] then "" else [RS] + Record(log[0]) + PrintLog(log[1..])
  }

  function ChangeOf(c: Change): FileChange {
    match c.counts
    case None => FileChange(PathBytes(c.units), None, None)
    case Some((added, deleted)) => FileChange(PathBytes(c.units), Some(added), Some(deleted))
  }

  function ChangesOf(changes: seq<Change>): (r: seq<FileChange>)
    ensures |r| == |changes| && forall i | 0 <= i < |changes| :: r[i] == ChangeOf(changes[i])
  {
    seq(|changes|, i requires 0 <= i < |changes| => ChangeOf(changes[i]))
  }

  /** The commit, but with these files. */
  function CommitWith(s: Source, files: seq<FileChange>, boundary: set<string>, lower: string -> string): Commit {
    Commit(s.sha, s.parents, s.name + " <" + lower(s.email) + ">", s.time, s.subject, files, s.sha in boundary)
  }

  function CommitOf(s: Source, boundary: set<string>, lower: string -> string): Commit {
    CommitWith(s, ChangesOf(s.changes), boundary, lower)
  }

  // ------------------------------------------------------------------ taking strings apart again

  lemma FirstAfter(a: string, c: char, rest: string, k: Class)
    requires Free(a, k) && k.Has(c)
    ensures First(a + [c] + rest, k) == |a|
  {
    var s := a + [c] + rest;
    assert s[|a|] == c;
    assert forall i | 0 <= i < |a| :: s[i] == a[i];
  }

  lemma FirstNone(a: string, k: Class)
    requires Free(a, k)
    ensures First(a, k) == |a|
  {
  }

  lemma SplitCons(a: string, sep: char, rest: string)
    requires Free(a, One(sep))
    ensures Split(a + [sep] + rest, sep) == [a] + Split(rest, sep)
  {
    FirstAfter(a, sep, rest, One(sep));
    var s := a + [sep] + rest;
    assert s[..|a|] == a && s[|a| + 1..] == rest;
  }

  lemma SplitOne(a: string, sep: char)
    requires Free(a, One(sep))
    ensures Split(a, sep) == [a]
  {
    FirstNone(a, One(sep));
  }

  lemma {:induction false} SplitInvertsJoin(pieces: seq<string>, sep: char)
    requires pieces != [] && forall i | 0 <= i < |pieces| :: Free(pieces[i], One(sep))
    ensures Split(Join(pieces, sep), sep) == pieces
  {
    if |pieces| == 1 {
      SplitOne(pieces[0], sep);
    } else {
      SplitInvertsJoin(pieces[1..], sep);
      SplitCons(pieces[0], sep, Join(pieces[1..], sep));
    }
  }

  lemma FreeCons(a: string, c: char, rest: string, k: Class)
    requires Free(a, k) && !k.Has(c) && Free(rest, k)
    ensures Free(a + [c] + rest, k)
  {
  }

  lemma {:induction false} JoinFree(pieces: seq<string>, sep: char, k: Class)
    requires !k.Has(sep) && forall i | 0 <= i < |pieces| :: Free(pieces[i], k)
    ensures Free(Join(pieces, sep), k)
  {
    if |pieces| > 1 {
      JoinFree(pieces[1..], sep, k);
      FreeCons(pieces[0], sep, Join(pieces[1..], sep), k);
    }
  }

  lemma LinesCons(a: string, rest: string)
    requires Free(a, Break)
    ensures Lines(a + ['\n'] + rest) == [a] + Lines(rest)
  {
    FirstAfter(a, '\n', rest, Break);
    var s := a + ['\n'] + rest;
    assert s[..|a|] == a && s[|a| + 1..] == rest;
  }

  lemma {:induction false} ParseDigitsOfDigits(n: nat)
    ensures ParseDigits(Digits(n)) == Some(n)
  {
    var s := Digits(n);
    var last := ('0' as int + n % 10) as char;
    assert IsDigit(last) && last as int - '0' as int == n % 10;
    if n < 10 {
      assert s == [last] && s[..0] == "";
    } else {
      ParseDigitsOfDigits(n / 10);
      var front := Digits(n / 10);
      assert s == front + [last] && s[..|s| - 1] == front;
      assert IsDigit(front[|front| - 1]);
    }
  }

  lemma StripKeeps(s: string)
    requires s != "" ==> !IsSpace(s[0]) && !IsSpace(s[|s| - 1])
    ensures Strip(s) == s
  {
  }

  lemma DigitsPrintable(n: nat)
    ensures forall i | 0 <= i < |Digits(n)| :: IsDigit(Digits(n)[i]) && !IsSpace(Digits(n)[i])
  {
  }

  lemma DecimalPrintable(n: int)
    ensures forall i | 0 <= i < |Decimal(n)| :: IsDigit(Decimal(n)[i]) || Decimal(n)[i] == '-'
  {
    DigitsPrintable(if n < 0 then -n else n);
  }

  lemma ParseIntOfDecimal(n: int)
    ensures ParseInt(Decimal(n)) == Some(n)
    ensures forall i | 0 <= i < |Decimal(n)| :: IsDigit(Decimal(n)[i]) || Decimal(n)[i] == '-'
  {
    var s, digits := Decimal(n), Digits(if n < 0 then -n else n);
    DecimalPrintable(n);
    DigitsPrintable(if n < 0 then -n else n);
    StripKeeps(s);
    ParseDigitsOfDigits(if n < 0 then -n else n);
    if n < 0 {
      assert s[0] == '-' && s[1..] == digits;
    } else {
      assert s == digits && IsDigit(s[0]);
    }
  }

  lemma WordsCons(word: string, rest: string)
    requires word != "" && Free(word, Space)
    ensures Words(word) == [word]
    ensures Words(word + [' '] + rest) == [word] + Words(rest)
  {
    FirstNone(word, Space);
    FirstAfter(word, ' ', rest, Space);
    var s := word + [' '] + rest;
    assert s[0] == word[0] && !Space.Has(word[0]);
    assert word[..|word|] == word && word[|word|..] == "";
    assert s[..|word|] == word && s[|word|..] == [' '] + rest;
    assert ([' '] + rest)[1..] == rest;
  }

  lemma {:induction false} WordsInvertJoin(words: seq<string>)
    requires forall i | 0 <= i < |words| :: words[i] != "" && Free(words[i], Space)
    ensures Words(Join(words, ' ')) == words
  {
    if words != [] {
      WordsCons(words[0], Join(words[1..], ' '));
      if |words| > 1 {
        WordsInvertJoin(words[1..]);
      }
    }
  }

  // ------------------------------------------------------------------ lines and records

  /** What git prints for a path has no control characters, so neither tabs nor record separators. */
  lemma {:induction false} BodyPrintable(units: seq<Unit>)
    requires ValidUnits(units)
    ensures forall i | 0 <= i < |QuotedBody(units)| :: QuotedBody(units)[i] >= ' '
    ensures NoBreaks(units) ==> Free(QuotedBody(units), Break)
  {
    if units != [] {
      BodyPrintable(units[1..]);
      var first := UnitText(units[0]);
      assert forall i | 0 <= i < |first| :: first[i] >= ' ';
      assert NoBreaks(units) ==> NoBreaks(units[1..]) && Free(first, Break);
    }
  }

  lemma PathPrintable(units: seq<Unit>)
    requires ValidUnits(units)
    ensures forall i | 0 <= i < |GitPath(units)| :: GitPath(units)[i] >= ' '
    ensures NoBreaks(units) ==> Free(GitPath(units), Break)
  {
    BodyPrintable(units);
  }

  lemma CountsPrintable(c: Change)
    ensures forall i | 0 <= i < |Counts(c).0| :: Counts(c).0[i] > ' ' && Counts(c).0[i] <= '9'
    ensures forall i | 0 <= i < |Counts(c).1| :: Counts(c).1[i] > ' ' && Counts(c).1[i] <= '9'
  {
  }

  lemma ColumnsParse(added: string, deleted: string, path: string)
    requires Free(added, One('\t')) && Free(deleted, One('\t')) && Free(path, One('\t'))
    ensures ParseLine(Join([added, deleted, path], '\t')) ==
              [FileChange(Unquoted(path), Count(added), Count(deleted))]
  {
    SplitInvertsJoin([added, deleted, path], '\t');
  }

  lemma CountsParse(c: Change)
    ensures ChangeOf(c) == FileChange(PathBytes(c.units), Count(Counts(c).0), Count(Counts(c).1))
  {
    if c.counts.Some? {
      ParseDigitsOfDigits(c.counts.value.0);
      ParseDigitsOfDigits(c.counts.value.1);
    }
  }

  lemma LineParses(c: Change)
    requires ValidChange(c)
    ensures ParseLine(ChangeLine(c)) == [ChangeOf(c)]
    ensures Free(ChangeLine(c), One(RS))
    ensures NoBreaks(c.units) ==> Free(ChangeLine(c), Break)
  {
    var (added, deleted) := Counts(c);
    var path := GitPath(c.units);
    PathPrintable(c.units);
    CountsPrintable(c);
    UnquoteInvertsGit(c.units);
    CountsParse(c);
    ColumnsParse(added, deleted, path);
    JoinFree([added, deleted, path], '\t', One(RS));
    if NoBreaks(c.units) {
      JoinFree([added, deleted, path], '\t', Break);
    }
  }

  // ------------------------------------------------------------------ paths with line breaks in them

  lemma {:induction false} TextAppends(a: seq<Unit>, b: seq<Unit>)
    requires ValidUnits(a) && ValidUnits(b)
    ensures QuotedBody(a + b) == QuotedBody(a) + QuotedBody(b)
  {
    if a == [] {
      assert a + b == b;
    } else {
      TextAppends(a[1..], b);
      assert (a + b)[1..] == a[1..] + b;
      Associates(UnitText(a[0]), QuotedBody(a[1..]), QuotedBody(b));
    }
  }

  lemma {:induction false} BytesAppend(a: seq<Unit>, b: seq<Unit>)
    ensures PathBytes(a + b) == PathBytes(a) + PathBytes(b)
  {
    if a == [] {
      assert a + b == b;
    } else {
      BytesAppend(a[1..], b);
      assert (a + b)[1..] == a[1..] + b;
      Associates(UnitBytes(a[0]), PathBytes(a[1..]), PathBytes(b));
    }
  }

  lemma {:induction false} EncodedAppends(a: string, b: string)
    ensures Encoded(a + b) == Encoded(a) + Encoded(b)
  {
    if a == "" {
      assert a + b == b;
    } else {
      EncodedAppends(a[1..], b);
      assert (a + b)[1..] == a[1..] + b;
      Associates(Utf8(a[0]), Encoded(a[1..]), Encoded(b));
    }
  }

  /** Quotes and backslashes, which are escaped with one more backslash. */
  predicate Doubled(units: seq<Unit>) {
    forall i | 0 <= i < |units| :: units[i] == Escaped(34) || units[i] == Escaped(92)
  }

  lemma {:induction false} DoubledBytes(units: seq<Unit>)
    requires ValidUnits(units) && Doubled(units)
    ensures |PathBytes(units)| == |units|
    ensures |Encoded(QuotedBody(units))| == 2 * |units|
    ensures forall i | 0 <= i < 2 * |units| :: Encoded(QuotedBody(units))[i] in [34, 92]
  {
    if units != [] {
      DoubledBytes(units[1..]);
      var text := UnitText(units[0]);
      assert text[..1] == "\\" && text[1..][1..] == "" && text[1..] == [text[1]];
      assert Encoded(text) == [92] + Encoded(text[1..]) && Encoded(text[1..]) == Utf8(text[1]);
      EncodedAppends(text, QuotedBody(units[1..]));
    }
  }

  lemma BytesHead(units: seq<Unit>)
    requires units != []
    ensures |PathBytes(units)| >= 1 && PathBytes(units)[0] == UnitBytes(units[0])[0]
  {
    assert PathBytes(units) == UnitBytes(units[0]) + PathBytes(units[1..]);
  }

  lemma HeadByte(front: seq<Unit>, back: seq<Unit>)
    requires ValidUnits(front) && Doubled(front) && back != []
    ensures |PathBytes(front + back)| > |front| && PathBytes(front + back)[|front|] == UnitBytes(back[0])[0]
  {
    DoubledBytes(front);
    BytesAppend(front, back);
    BytesHead(back);
  }

  lemma HeadSpelled(front: seq<Unit>, middle: seq<Unit>)
    requires ValidUnits(front) && Doubled(front) && ValidUnits(middle)
    ensures var spelled := [34] + Encoded(QuotedBody(front + middle));
      |spelled| > |front| && spelled[|front|] in [34, 92]
  {
    DoubledBytes(front);
    TextAppends(front, middle);
    EncodedAppends(QuotedBody(front), QuotedBody(middle));
  }

  lemma OnlyDoubled(u: Unit)
    requires ValidUnit(u) && UnitBytes(u)[0] in [34, 92]
    ensures u == Escaped(34) || u == Escaped(92)
  {
  }

  lemma SpelledHead(front: seq<Unit>, middle: seq<Unit>, back: seq<Unit>)
    requires ValidUnits(front) && ValidUnits(middle) && ValidUnits(back) && Doubled(front) && back != []
    requires [34] + Encoded(QuotedBody(front + middle)) == PathBytes(front + (middle + back))
    ensures (middle + back)[0] == Escaped(34) || (middle + back)[0] == Escaped(92)
  {
    HeadSpelled(front, middle);
    HeadByte(front, middle + back);
    OnlyDoubled((middle + back)[0]);
  }

  lemma Shift<T>(front: seq<T>, middle: seq<T>, back: seq<T>)
    requires middle != []
    ensures front + [middle[0]] + middle[1..] == front + middle
    ensures front + [middle[0]] + (middle[1..] + back) == front + (middle + back)
  {
  }

  /** A quote in front of the escaped text never spells the path itself: unit by unit, the path
      would have to go on in escaped quotes and backslashes forever. */
  lemma {:induction false} QuoteNeverSpells(front: seq<Unit>, middle: seq<Unit>, back: seq<Unit>)
    requires ValidUnits(front) && ValidUnits(middle) && ValidUnits(back)
    requires Doubled(front) && back != [] && back[0].Raw?
    ensures [34] + Encoded(QuotedBody(front + middle)) != PathBytes(front + (middle + back))
    decreases |middle|
  {
    if [34] + Encoded(QuotedBody(front + middle)) == PathBytes(front + (middle + back)) {
      SpelledHead(front, middle, back);
      assert middle != [] && (middle + back)[0] == middle[0];
      Shift(front, middle, back);
      QuoteNeverSpells(front + [middle[0]], middle[1..], back);
    }
  }

  /** The text of the units before the break, with the opening quote if there is one. */
  function CutPath(front: seq<Unit>, quoted: bool): string
    requires ValidUnits(front)
  {
    (if quoted then ['"'] else []) + QuotedBody(front)
  }

  lemma LastQuote(u: Unit)
    requires ValidUnit(u) && UnitText(u)[|UnitText(u)| - 1] == '"'
    ensures u == Escaped(34) && UnitText(u) == ['\\', '"']
  {
  }

  lemma EndsInQuote(init: seq<Unit>, last: Unit)
    requires ValidUnits(init) && ValidUnit(last)
    requires QuotedBody(init + [last]) != "" ==> QuotedBody(init + [last])[|QuotedBody(init + [last])| - 1] == '"'
    ensures last == Escaped(34) && QuotedBody(init + [last]) == QuotedBody(init) + ['\\', '"']
  {
    TextAppends(init, [last]);
    assert QuotedBody([last]) == UnitText(last) + "";
    LastQuote(last);
  }

  lemma TrimQuotes(text: string, cut: string)
    requires cut == ['"'] + (text + ['\\', '"'])
    ensures cut[1..|cut| - 1] == text + "\\"
  {
  }

  lemma CutQuotedEnds(init: seq<Unit>, last: Unit, cut: string)
    requires ValidUnits(init) && ValidUnit(last) && cut == ['"'] + QuotedBody(init + [last]) && Quoted(cut)
    ensures Unquoted(cut) == PathBytes(init) + [92] && last == Escaped(34)
  {
    EndsInQuote(init, last);
    TrimQuotes(QuotedBody(init), cut);
    BodyBytesBefore(init);
  }

  lemma CutQuoted(front: seq<Unit>)
    requires ValidUnits(front) && Quoted(CutPath(front, true))
    ensures |Unquoted(CutPath(front, true))| <= |PathBytes(front)|
  {
    var init, last := front[..|front| - 1], front[|front| - 1];
    assert front == init + [last];
    CutQuotedEnds(init, last, CutPath(front, true));
    BytesAppend(init, [last]);
    BytesHead([last]);
  }

  lemma {:induction false} BodyBytesBefore(units: seq<Unit>)
    requires ValidUnits(units)
    ensures BodyBytes(QuotedBody(units) + "\\") == PathBytes(units) + [92]
  {
    var text := QuotedBody(units) + "\\";
    if units == [] {
      assert text == "\\" && text[1..] == "";
    } else {
      BodyBytesBefore(units[1..]);
      var rest := QuotedBody(units[1..]) + "\\";
      assert text == UnitText(units[0]) + rest;
      TurnUndoesUnit(units[0], rest);
      assert text[|UnitText(units[0])|..] == rest;
    }
  }

  /** Up to a break, a path is read as another one. */
  lemma CutDiffers(front: seq<Unit>, back: seq<Unit>, quoted: bool)
    requires ValidUnits(front) && ValidUnits(back) && back != [] && back[0].Raw?
    requires !quoted ==> !NeedsQuotes(front)
    ensures Unquoted(CutPath(front, quoted)) != PathBytes(front + back)
  {
    var cut := CutPath(front, quoted);
    BytesAppend(front, back);
    assert |PathBytes(back)| >= |UnitBytes(back[0])| >= 1;
    if !quoted {
      PlainText(front);
      assert cut == QuotedBody(front) && !Quoted(cut);
    } else if Quoted(cut) {
      CutQuoted(front);
    } else {
      QuoteNeverSpells([], front, back);
      assert [] + front == front && [] + (front + back) == front + back;
      assert cut == ['"'] + QuotedBody(front) && cut[1..] == QuotedBody(front);
    }
  }

  function FirstBreak(units: seq<Unit>): (k: nat)
    requires !NoBreaks(units)
    ensures k < |units| && units[k].Raw? && IsBreak(units[k].c) && NoBreaks(units[..k])
  {
    if units[0].Raw? && IsBreak(units[0].c) then 0 else
      assert !NoBreaks(units[1..]) by {
        var i :| 0 <= i < |units| && units[i].Raw? && IsBreak(units[i].c);
        assert units[1..][i - 1] == units[i];
      }
      var k := FirstBreak(units[1..]);
      assert units[..k + 1] == [units[0]] + units[1..][..k];
      k + 1
  }

  /** The text from the break on. */
  function AfterCut(back: seq<Unit>, quoted: bool): string
    requires ValidUnits(back) && back != []
  {
    QuotedBody(back[1..]) + if quoted then "\"" else ""
  }

  lemma Regroup(a: string, b: string, c: char, d: string, e: string)
    ensures a + (b + ([c] + d)) + e == (a + b) + [c] + (d + e)
  {
  }

  lemma PathCut(front: seq<Unit>, back: seq<Unit>)
    requires ValidUnits(front) && ValidUnits(back) && back != [] && back[0].Raw?
    ensures var quoted := NeedsQuotes(front + back);
      GitPath(front + back) == CutPath(front, quoted) + [back[0].c] + AfterCut(back, quoted)
  {
    CutText(front, back);
    var head, c, tail := QuotedBody(front), back[0].c, QuotedBody(back[1..]);
    if NeedsQuotes(front + back) {
      Regroup("\"", head, c, tail, "\"");
    } else {
      Regroup("", head, c, tail, "");
    }
  }

  lemma CutText(front: seq<Unit>, back: seq<Unit>)
    requires ValidUnits(front) && ValidUnits(back) && back != [] && back[0].Raw?
    ensures QuotedBody(front + back) == QuotedBody(front) + ([back[0].c] + QuotedBody(back[1..]))
  {
    TextAppends(front, back);
    BodyCut(back);
  }

  lemma BodyCut(back: seq<Unit>)
    requires ValidUnits(back) && back != [] && back[0].Raw?
    ensures QuotedBody(back) == [back[0].c] + QuotedBody(back[1..])
  {
  }

  lemma CutPrintable(front: seq<Unit>, quoted: bool)
    requires ValidUnits(front) && NoBreaks(front)
    ensures Free(CutPath(front, quoted), Break) && Free(CutPath(front, quoted), One('\t'))
  {
    BodyPrintable(front);
  }

  lemma JoinThree(a: string, b: string, c: string)
    ensures Join([a, b, c], '\t') == a + ['\t'] + (b + ['\t'] + c)
  {
    assert [a, b, c][1..] == [b, c];
    assert [b, c][1..] == [c];
    assert Join([c], '\t') == c;
    assert Join([b, c], '\t') == b + ['\t'] + c;
  }

  lemma LinesBroken(line: string, c: char, rest: string)
    requires Free(line, Break) && IsBreak(c) && c != '\r'
    ensures Lines(line + [c] + rest) == [line] + Lines(rest)
  {
    FirstAfter(line, c, rest, Break);
    var s := line + [c] + rest;
    assert s[..|line|] == line && s[|line| + 1..] == rest;
  }

  /** The line of a path with a break in it is read as a change of another path. */
  lemma BrokenLine(c: Change, rest: string)
    requires ValidChange(c) && !NoBreaks(c.units)
    ensures var files := ParseLines(Lines(ChangeLine(c) + ['\n'] + rest)); files != [] && files[0] != ChangeOf(c)
  {
    var k := FirstBreak(c.units);
    var front, back, quoted := c.units[..k], c.units[k..], NeedsQuotes(c.units);
    assert c.units == front + back;
    PathCut(front, back);
    CutPrintable(front, quoted);
    assert !quoted ==> !NeedsQuotes(front) by {
      assert forall i | 0 <= i < k :: front[i] == c.units[i];
    }
    CutDiffers(front, back, quoted);
    CutLine(c, CutPath(front, quoted), back[0].c, AfterCut(back, quoted), rest);
  }

  lemma RegroupLine(a: string, b: string, cut: string, at: char, after: string, rest: string)
    ensures a + ['\t'] + (b + ['\t'] + (cut + [at] + after)) + ['\n'] + rest ==
              (a + ['\t'] + (b + ['\t'] + cut)) + [at] + (after + ['\n'] + rest)
  {
  }

  lemma CutLine(c: Change, cut: string, at: char, after: string, rest: string)
    requires ValidChange(c) && GitPath(c.units) == cut + [at] + after && IsBreak(at) && at != '\r'
    requires Free(cut, Break) && Free(cut, One('\t')) && Unquoted(cut) != PathBytes(c.units)
    ensures var files := ParseLines(Lines(ChangeLine(c) + ['\n'] + rest)); files != [] && files[0] != ChangeOf(c)
  {
    var (added, deleted) := Counts(c);
    CountsPrintable(c);
    var line, tail := Join([added, deleted, cut], '\t'), after + ['\n'] + rest;
    JoinThree(added, deleted, cut);
    JoinThree(added, deleted, cut + [at] + after);
    RegroupLine(added, deleted, cut, at, after, rest);
    JoinFree([added, deleted, cut], '\t', Break);
    LinesBroken(line, at, tail);
    ColumnsParse(added, deleted, cut);
    CollectedCons(line, Lines(tail), ParseLine);
  }

  lemma SameParts<T>(a: T, b: seq<T>, c: T, d: seq<T>)
    ensures [a] + b == [c] + d <==> a == c && b == d
  {
    assert ([a] + b)[0] == a && ([c] + d)[0] == c && ([a] + b)[1..] == b && ([c] + d)[1..] == d;
  }

  /** The changes come back exactly if no path has such a break. */
  lemma {:induction false} ChangeLinesParse(changes: seq<Change>)
    requires forall i | 0 <= i < |changes| :: ValidChange(changes[i])
    ensures ParseLines(Lines(ChangeLines(changes))) == ChangesOf(changes) <==> Unbroken(changes)
  {
    if changes != [] {
      ChangeLinesParse(changes[1..]);
      FirstLineParses(changes[0], ChangeLines(changes[1..]), ChangesOf(changes[1..]));
      assert ChangesOf(changes) == [ChangeOf(changes[0])] + ChangesOf(changes[1..]);
      UnbrokenCons(changes);
    }
  }

  lemma UnbrokenCons(changes: seq<Change>)
    requires changes != []
    ensures Unbroken(changes) <==> NoBreaks(changes[0].units) && Unbroken(changes[1..])
  {
    assert changes == [changes[0]] + changes[1..];
  }

  lemma FirstLineParses(c: Change, rest: string, files: seq<FileChange>)
    requires ValidChange(c)
    ensures ParseLines(Lines(ChangeLine(c) + ['\n'] + rest)) == [ChangeOf(c)] + files <==>
              NoBreaks(c.units) && ParseLines(Lines(rest)) == files
  {
    LineParses(c);
    if NoBreaks(c.units) {
      LinesCons(ChangeLine(c), rest);
      CollectedCons(ChangeLine(c), Lines(rest), ParseLine);
      SameParts(ChangeOf(c), ParseLines(Lines(rest)), ChangeOf(c), files);
    } else {
      BrokenLine(c, rest);
    }
  }

  lemma {:induction false} ChangeLinesFree(changes: seq<Change>)
    requires forall i | 0 <= i < |changes| :: ValidChange(changes[i])
    ensures Free(ChangeLines(changes), One(RS))
  {
    if changes != [] {
      ChangeLinesFree(changes[1..]);
      LineParses(changes[0]);
      FreeCons(ChangeLine(changes[0]), '\n', ChangeLines(changes[1..]), One(RS));
    }
  }

  // ------------------------------------------------------------------ records and logs

  lemma SpaceFree(a: string)
    requires Free(a, Space)
    ensures Free(a, Separator)
  {
    assert forall i | 0 <= i < |a| :: !Space.Has(a[i]);
  }

  lemma FreeOf(a: string, c: char)
    requires Free(a, Separator) && Separator.Has(c)
    ensures Free(a, One(c))
  {
    assert forall i | 0 <= i < |a| :: !Separator.Has(a[i]);
  }

  lemma HeaderFree(s: Source, c: char)
    requires ValidSource(s) && Separator.Has(c)
    ensures forall i | 0 <= i < |HeaderFields(s)| :: Free(HeaderFields(s)[i], One(c))
  {
    forall i | 0 <= i < |s.parents| ensures Free(s.parents[i], Separator) {
      SpaceFree(s.parents[i]);
    }
    JoinFree(s.parents, ' ', Separator);
    ParseIntOfDecimal(s.time);
    forall i | 0 <= i < |HeaderFields(s)| ensures Free(HeaderFields(s)[i], One(c)) {
      assert Free(HeaderFields(s)[i], Separator);
      FreeOf(HeaderFields(s)[i], c);
    }
  }

  lemma HeaderParses(s: Source)
    requires ValidSource(s)
    ensures Split(Header(s), US) == HeaderFields(s)
    ensures Free(Header(s), One(RS)) && Free(Header(s), One('\n'))
  {
    HeaderFree(s, US);
    SplitInvertsJoin(HeaderFields(s), US);
    HeaderFree(s, RS);
    JoinFree(HeaderFields(s), US, One(RS));
    HeaderFree(s, '\n');
    JoinFree(HeaderFields(s), US, One('\n'));
  }

  lemma BodyParses(changes: seq<Change>)
    requires forall i | 0 <= i < |changes| :: ValidChange(changes[i])
    ensures ParseLines(Lines(Body(changes))) == ChangesOf(changes) <==> Unbroken(changes)
    ensures Free(Body(changes), One(RS))
  {
    ChangeLinesParse(changes);
    ChangeLinesFree(changes);
    if changes != [] {
      LinesCons([], ChangeLines(changes));
      CollectedCons([], Lines(ChangeLines(changes)), ParseLine);
      SplitOne([], '\t');
      FreeCons([], '\n', ChangeLines(changes), One(RS));
    }
  }

  lemma PartitionAt(header: string, body: string)
    requires Free(header, One('\n'))
    ensures Partition(header + ['\n'] + body) == (header, body)
  {
    FirstAfter(header, '\n', body, One('\n'));
    var record := header + ['\n'] + body;
    assert record[..|header|] == header && record[|header| + 1..] == body;
  }

  lemma NotBlank(s: Source)
    requires ValidSource(s)
    ensures !Blank(Record(s))
  {
    assert Record(s)[0] == s.sha[0] && !Space.Has(s.sha[0]);
  }

  function FilesRead(s: Source): seq<FileChange>
    requires ValidSource(s)
  {
    ParseLines(Lines(Body(s.changes)))
  }

  lemma RecordParses(s: Source, boundary: set<string>, lower: string -> string)
    requires ValidSource(s)
    ensures ParseRecord(Record(s), boundary, lower) == [CommitWith(s, FilesRead(s), boundary, lower)]
    ensures Free(Record(s), One(RS))
  {
    HeaderParses(s);
    BodyParses(s.changes);
    PartitionAt(Header(s), Body(s.changes));
    NotBlank(s);
    ParseIntOfDecimal(s.time);
    WordsInvertJoin(s.parents);
    FreeCons(Header(s), '\n', Body(s.changes), One(RS));
  }

  function Records(log: seq<Source>): (r: seq<string>)
    requires forall i | 0 <= i < |log| :: ValidSource(log[i])
  {
    if log == [] then [] else [Record(log[0])] + Records(log[1..])
  }

  lemma JoinAfterEmpty(piece: string, pieces: seq<string>, sep: char)
    ensures Join([""] + ([piece] + pieces), sep) == [sep] + piece + Join([""] + pieces, sep)
  {
    var all := [piece] + pieces;
    assert all[1..] == pieces;
    assert ([""] + all)[1..] == all && ([""] + pieces)[1..] == pieces;
    if pieces != [] {
      assert Join([""] + pieces, sep) == [sep] + Join(pieces, sep);
      assert Join(all, sep) == piece + [sep] + Join(pieces, sep);
    }
  }

  lemma {:induction false} LogIsJoin(log: seq<Source>)
    requires forall i | 0 <= i < |log| :: ValidSource(log[i])
    ensures PrintLog(log) == Join([""] + Records(log), RS)
  {
    if log != [] {
      LogIsJoin(log[1..]);
      JoinAfterEmpty(Record(log[0]), Records(log[1..]), RS);
    }
  }

  lemma {:induction false} RecordsFree(log: seq<Source>)
    requires forall i | 0 <= i < |log| :: ValidSource(log[i])
    ensures forall i | 0 <= i < |Records(log)| :: Free(Records(log)[i], One(RS))
  {
    if log != [] {
      RecordsFree(log[1..]);
      RecordParses(log[0], {}, x => x);
    }
  }

  lemma PiecesSplit(pieces: seq<string>)
    requires forall i | 0 <= i < |pieces| :: Free(pieces[i], One(RS))
    ensures Split(Join([""] + pieces, RS), RS) == [""] + pieces
  {
    var all := [""] + pieces;
    forall i | 0 <= i < |all| ensures Free(all[i], One(RS)) {
      assert i > 0 ==> all[i] == pieces[i - 1];
    }
    SplitInvertsJoin(all, RS);
  }

  lemma LogSplits(log: seq<Source>)
    requires forall i | 0 <= i < |log| :: ValidSource(log[i])
    ensures Split(PrintLog(log), RS) == [""] + Records(log)
  {
    RecordsFree(log);
    LogIsJoin(log);
    PiecesSplit(Records(log));
  }

  function CommitsOf(log: seq<Source>, boundary: set<string>, lower: string -> string): (r: seq<Commit>)
    ensures |r| == |log| && forall i | 0 <= i < |log| :: r[i] == CommitOf(log[i], boundary, lower)
  {
    if log == [] then [] else [CommitOf(log[0], boundary, lower)] + CommitsOf(log[1..], boundary, lower)
  }

  ghost predicate AllUnbroken(log: seq<Source>) {
    forall i | 0 <= i < |log| :: Unbroken(log[i].changes)
  }

  function CommitsRead(log: seq<Source>, boundary: set<string>, lower: string -> string): (r: seq<Commit>)
    requires forall i | 0 <= i < |log| :: ValidSource(log[i])
  {
    if log == [] then [] else
      [CommitWith(log[0], FilesRead(log[0]), boundary, lower)] + CommitsRead(log[1..], boundary, lower)
  }

  lemma {:induction false} RecordsParse(log: seq<Source>, boundary: set<string>, lower: string -> string)
    requires forall i | 0 <= i < |log| :: ValidSource(log[i])
    ensures ParseRecords(Records(log), boundary, lower) == CommitsRead(log, boundary, lower)
  {
    if log != [] {
      RecordsParse(log[1..], boundary, lower);
      RecordParses(log[0], boundary, lower);
      CollectedCons(Record(log[0]), Records(log[1..]), RecordParser(boundary, lower));
    }
  }

  lemma CommitReadExactly(s: Source, boundary: set<string>, lower: string -> string)
    requires ValidSource(s)
    ensures CommitWith(s, FilesRead(s), boundary, lower) == CommitOf(s, boundary, lower) <==> Unbroken(s.changes)
  {
    BodyParses(s.changes);
  }

  lemma AllUnbrokenCons(log: seq<Source>)
    requires log != []
    ensures AllUnbroken(log) <==> Unbroken(log[0].changes) && AllUnbroken(log[1..])
  {
    assert log == [log[0]] + log[1..];
  }

  lemma {:induction false} CommitsReadExactly(log: seq<Source>, boundary: set<string>, lower: string -> string)
    requires forall i | 0 <= i < |log| :: ValidSource(log[i])
    ensures CommitsRead(log, boundary, lower) == CommitsOf(log, boundary, lower) <==> AllUnbroken(log)
  {
    if log != [] {
      CommitsReadExactly(log[1..], boundary, lower);
      CommitReadExactly(log[0], boundary, lower);
      AllUnbrokenCons(log);
      SameParts(CommitWith(log[0], FilesRead(log[0]), boundary, lower), CommitsRead(log[1..], boundary, lower),
                CommitOf(log[0], boundary, lower), CommitsOf(log[1..], boundary, lower));
    }
  }

  lemma EmptySkipped(boundary: set<string>, lower: string -> string)
    ensures RecordParser(boundary, lower)("") == []
  {
  }

  /** Parsing what git prints gives the history back: every commit with its fields, its files with
      the very bytes of their paths, and its e-mail in lower case. It does so exactly if no path has,
      as a plain character, a line break of `str.splitlines`; those git can leave as they are
      are U+0085, U+2028 and U+2029. */
  lemma ParseInvertsPrint(log: seq<Source>, boundary: set<string>, lower: string -> string)
    requires forall i | 0 <= i < |log| :: ValidSource(log[i])
    ensures ParseRecords(Split(PrintLog(log), RS), boundary, lower) == CommitsOf(log, boundary, lower) <==> AllUnbroken(log)
  {
    LogSplits(log);
    RecordsParse(log, boundary, lower);
    CommitsReadExactly(log, boundary, lower);
    EmptySkipped(boundary, lower);
    CollectedCons("", Records(log), RecordParser(boundary, lower));
  }
}
