/** git_log.py `_unquote_path`, as the inverse of git's C-style path quoting. Text is a sequence of
    code points, the result a sequence of bytes. */
module PathQuoting {

  type Bytes = seq<int>

  predicate AllBytes(s: Bytes) {
    forall i | 0 <= i < |s| :: 0 <= s[i] < 256
  }

  /** `str.encode("utf-8")` of one character. */
  function Utf8(c: char): Bytes {
    var n := c as int;
    if n < 0x80 then [n]
    else if n < 0x800 then [0xC0 + n / 0x40, 0x80 + n % 0x40]
    else if n < 0x1_0000 then [0xE0 + n / 0x1000, 0x80 + n / 0x40 % 0x40, 0x80 + n % 0x40]
    else [0xF0 + n / 0x4_0000, 0x80 + n / 0x1000 % 0x40, 0x80 + n / 0x40 % 0x40, 0x80 + n % 0x40]
  }

  function Encoded(s: string): Bytes {
    if s == "" then [] else Utf8(s[0]) + Encoded(s[1..])
  }

  // ------------------------------------------------------------------ unquoting

  predicate IsOctal(c: char) {
    '0' <= c <= '7'
  }

  function OctalDigit(c: char): int
    requires IsOctal(c)
  {
    c as int - '0' as int
  }

  /** `_ESCAPES.get(following, ord(following) & 0xFF)` */
  function EscapeValue(c: char): int {
    match c
    case 'a' => 7
    case 'b' => 8
    case 't' => 9
    case 'n' => 10
    case 'v' => 11
    case 'f' => 12
    case 'r' => 13
    case _ => c as int % 256
  }

  /** What one turn of the loop appends, and how many characters it takes. */
  function Turn(body: string): (Bytes, nat)
    requires body != ""
    ensures 1 <= Turn(body).1 <= |body|
  {
    if body[0] != '\\' || |body| == 1 then (Utf8(body[0]), 1)
    else if |body| >= 4 && IsOctal(body[1]) && IsOctal(body[2]) && IsOctal(body[3]) then
      ([(OctalDigit(body[1]) * 64 + OctalDigit(body[2]) * 8 + OctalDigit(body[3])) % 256], 4)
    else ([EscapeValue(body[1])], 2)
  }

  function BodyBytes(body: string): Bytes
    decreases |body|
  {
    if body == "" then [] else Turn(body).0 + BodyBytes(body[Turn(body).1..])
  }

  predicate Quoted(path: string) {
    |path| >= 2 && path[0] == '"' && path[|path| - 1] == '"'
  }

  function Unquoted(path: string): Bytes {
    if Quoted(path) then BodyBytes(path[1..|path| - 1]) else Encoded(path)
  }

  lemma TurnAt(body: string, index: nat, out: Bytes) returns (turn: (Bytes, nat))
    requires index < |body|
    ensures turn == Turn(body[index..]) && index + turn.1 <= |body|
    ensures out + BodyBytes(body[index..]) == out + turn.0 + BodyBytes(body[index + turn.1..])
  {
    turn := Turn(body[index..]);
    assert body[index..][turn.1..] == body[index + turn.1..];
  }

  /** `_unquote_path`, up to the final decoding of the bytes. */
  method UnquotePath(path: string) returns (out: Bytes)
    ensures out == Unquoted(path)
  {
    if !Quoted(path) {
      return Encoded(path);
    }
    var body := path[1..|path| - 1];
    out := [];
    var index := 0;
    while index < |body|
      invariant 0 <= index <= |body|
      invariant out + BodyBytes(body[index..]) == BodyBytes(body)
    {
      var current := body[index];
      ghost var turn := TurnAt(body, index, out);
      if current != '\\' || index + 1 == |body| {
        assert turn == (Utf8(current), 1);
        out := out + Utf8(current);
        index := index + 1;
      } else {
        var following := body[index + 1];
        if index + 4 <= |body| && IsOctal(body[index + 1]) && IsOctal(body[index + 2]) && IsOctal(body[index + 3]) {
          var octal := OctalDigit(body[index + 1]) * 64 + OctalDigit(body[index + 2]) * 8 + OctalDigit(body[index + 3]);
          assert turn == ([octal % 256], 4);
          out := out + [octal % 256];
          index := index + 4;
        } else {
          assert turn == ([EscapeValue(following)], 2);
          out := out + [EscapeValue(following)];
          index := index + 2;
        }
      }
    }
  }

  // ------------------------------------------------------------------ git's quoting

  /** A part of a path: a character git prints as it is, or a byte it escapes. */
  datatype Unit = Raw(c: char) | Escaped(b: int)

  /** With `core.quotePath=false` git escapes control characters, quotes and backslashes, and no
      bytes beyond ASCII; without it, those too. */
  predicate ValidUnit(u: Unit) {
    match u
    case Raw(c) => ' ' <= c && c != '"' && c != '\\' && c as int != 127
    case Escaped(b) => 0 <= b < 256
  }

  predicate ValidUnits(units: seq<Unit>) {
    forall i | 0 <= i < |units| :: ValidUnit(units[i])
  }

  function OctalChar(n: int): (c: char)
    requires 0 <= n < 8
    ensures IsOctal(c) && OctalDigit(c) == n
  {
    ('0' as int + n) as char
  }

  function EscapeByte(b: int): string
    requires 0 <= b < 256
  {
    if b == 7 then "\\a" else if b == 8 then "\\b" else if b == 9 then "\\t" else if b == 10 then "\\n"
    else if b == 11 then "\\v" else if b == 12 then "\\f" else if b == 13 then "\\r"
    else if b == 34 then "\\\"" else if b == 92 then "\\\\"
    else ['\\', OctalChar(b / 64), OctalChar(b / 8 % 8), OctalChar(b % 8)]
  }

  function UnitText(u: Unit): (s: string)
    requires ValidUnit(u)
    ensures s != ""
  {
    match u case Raw(c) => [c] case Escaped(b) => EscapeByte(b)
  }

  function UnitBytes(u: Unit): Bytes {
    match u case Raw(c) => Utf8(c) case Escaped(b) => [b]
  }

  /** The path itself. */
  function PathBytes(units: seq<Unit>): Bytes {
    if units == [] then [] else UnitBytes(units[0]) + PathBytes(units[1..])
  }

  function QuotedBody(units: seq<Unit>): string
    requires ValidUnits(units)
  {
    if units == [] then "" else UnitText(units[0]) + QuotedBody(units[1..])
  }

  predicate NeedsQuotes(units: seq<Unit>) {
    exists i :: 0 <= i < |units| && units[i].Escaped?
  }

  /** The path as git prints it. */
  function GitPath(units: seq<Unit>): string
    requires ValidUnits(units)
  {
    if NeedsQuotes(units) then "\"" + QuotedBody(units) + "\"" else QuotedBody(units)
  }

  /** One turn of the loop takes back exactly one unit, whatever follows it. */
  lemma TurnUndoesUnit(u: Unit, rest: string)
    requires ValidUnit(u)
    ensures Turn(UnitText(u) + rest) == (UnitBytes(u), |UnitText(u)|)
  {
    var text := UnitText(u);
    var body := text + rest;
    assert forall i | 0 <= i < |text| :: body[i] == text[i];
    if u.Escaped? {
      if |text| == 4 {
        assert body[1] == OctalChar(u.b / 64) && body[2] == OctalChar(u.b / 8 % 8) && body[3] == OctalChar(u.b % 8);
        assert u.b / 64 * 64 + u.b / 8 % 8 * 8 + u.b % 8 == u.b;
      } else {
        assert !IsOctal(body[1]);
      }
    }
  }

  lemma {:induction false} BodyBytesOfQuoted(units: seq<Unit>)
    requires ValidUnits(units)
    ensures BodyBytes(QuotedBody(units)) == PathBytes(units)
  {
    if units != [] {
      BodyBytesOfQuoted(units[1..]);
      var rest := QuotedBody(units[1..]);
      TurnUndoesUnit(units[0], rest);
      assert (UnitText(units[0]) + rest)[|UnitText(units[0])|..] == rest;
    }
  }

  lemma {:induction false} PlainText(units: seq<Unit>)
    requires ValidUnits(units) && !NeedsQuotes(units)
    ensures Encoded(QuotedBody(units)) == PathBytes(units)
    ensures forall i | 0 <= i < |QuotedBody(units)| :: QuotedBody(units)[i] != '"'
  {
    if units != [] {
      assert !units[0].Escaped?;
      var rest := units[1..];
      assert forall i | 0 <= i < |rest| :: rest[i] == units[i + 1] && !rest[i].Escaped?;
      PlainText(units[1..]);
      assert QuotedBody(units)[1..] == QuotedBody(units[1..]);
    }
  }

  /** `_unquote_path` recovers every path from what git prints for it. */
  lemma UnquoteInvertsGit(units: seq<Unit>)
    requires ValidUnits(units)
    ensures Unquoted(GitPath(units)) == PathBytes(units)
  {
    var path := GitPath(units);
    if NeedsQuotes(units) {
      assert path[1..|path| - 1] == QuotedBody(units);
      BodyBytesOfQuoted(units);
    } else {
      PlainText(units);
    }
  }

  /** With every byte beyond ASCII escaped, any byte string is a path git can print. */
  function UnitsOf(bytes: Bytes): (units: seq<Unit>)
    requires AllBytes(bytes)
    ensures ValidUnits(units) && |units| == |bytes|
  {
    if bytes == [] then [] else
      var b := bytes[0];
      [if 32 <= b < 127 && b != 34 && b != 92 then Raw(b as char) else Escaped(b)] + UnitsOf(bytes[1..])
  }

  lemma {:induction false} BytesOfUnits(bytes: Bytes)
    requires AllBytes(bytes)
    ensures PathBytes(UnitsOf(bytes)) == bytes
  {
    if bytes != [] {
      BytesOfUnits(bytes[1..]);
      assert UnitsOf(bytes)[1..] == UnitsOf(bytes[1..]);
      assert bytes == [bytes[0]] + bytes[1..];
    }
  }

  /** Quoting and unquoting is the identity on every byte string. */
  lemma EveryByteStringRoundTrips(bytes: Bytes)
    requires AllBytes(bytes)
    ensures Unquoted(GitPath(UnitsOf(bytes))) == bytes
  {
    BytesOfUnits(bytes);
    UnquoteInvertsGit(UnitsOf(bytes));
  }
}
