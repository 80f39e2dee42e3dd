/** JSON values (numbers being integers) and a reader of their texts: the grammar of section 2
    and the strings of section 7 of RFC 8259. Objects keep their key order, and a repeated
    key keeps its place and takes the last value, as Python's dict does. */
module Json {
  import opened Decimal
  import opened Wrappers

  datatype Json =
    | Null
    | Bool(b: bool)
    | Int(n: int)
    | Str(s: string)
    | Arr(items: seq<Json>)
    | Obj(members: seq<Member>)

  datatype Member = Member(key: string, value: Json)

  /** What is left to read after a value; Fail for a text that is not JSON. */
  datatype Parsed<+T> = Fail | Read(value: T, rest: string)

  predicate Space(c: char) {
    c == ' ' || c == '\t' || c == '\n' || c == '\r'
  }

  function SkipSpace(s: string): (r: string)
    ensures |r| <= |s|
  {
    if s != "" && Space(s[0]) then SkipSpace(s[1..]) else s
  }

  // ---- strings ---------------------------------------------------------------------------

  predicate IsHex(c: char) {
    IsDigit(c) || 'a' <= c <= 'f' || 'A' <= c <= 'F'
  }

  function HexValue(c: char): (n: nat)
    requires IsHex(c)
    ensures n < 16
  {
    if IsDigit(c) then DigitValue(c) else if 'a' <= c <= 'f' then (c - 'a') as nat + 10 else (c - 'A') as nat + 10
  }

  /** The code unit of `uXXXX`, the backslash already read. */
  function CodeUnit(s: string): Parsed<nat> {
    if |s| >= 5 && s[0] == 'u' && IsHex(s[1]) && IsHex(s[2]) && IsHex(s[3]) && IsHex(s[4])
    then Read(4096 * HexValue(s[1]) + 256 * HexValue(s[2]) + 16 * HexValue(s[3]) + HexValue(s[4]), s[5..])
    else Fail
  }

  /** One escaped character; a surrogate pair is one, a lone surrogate is none. */
  function Unescape(s: string): (r: Parsed<char>)
    ensures r.Read? ==> |r.rest| < |s|
  {
    if s == "" then Fail
    else match s[0]
      case '"' => Read('"', s[1..])
      case '\\' => Read('\\', s[1..])
      case '/' => Read('/', s[1..])
      case 'b' => Read('\U{8}', s[1..])
      case 'f' => Read('\U{C}', s[1..])
      case 'n' => Read('\n', s[1..])
      case 'r' => Read('\r', s[1..])
      case 't' => Read('\t', s[1..])
      case _ =>
        var unit := CodeUnit(s);
        if unit.Fail? then Fail
        else if !(0xD800 <= unit.value < 0xE000) then Read(unit.value as char, unit.rest)
        else if unit.value >= 0xDC00 || unit.rest == "" || unit.rest[0] != '\\' then Fail
        else
          var low := CodeUnit(unit.rest[1..]);
          if low.Fail? || !(0xDC00 <= low.value < 0xE000) then Fail
          else Read((0x10000 + 0x400 * (unit.value - 0xD800) + (low.value - 0xDC00)) as char, low.rest)
  }

  /** The characters up to the closing quote, the opening one already read. */
  function Chars(s: string): (r: Parsed<string>)
    ensures r.Read? ==> |r.rest| < |s|
    decreases |s|
  {
    if s == "" || s[0] < ' ' then Fail
    else if s[0] == '"' then Read("", s[1..])
    else
      var c := if s[0] == '\\' then Unescape(s[1..]) else Read(s[0], s[1..]);
      if c.Fail? then Fail
      else
        var more := Chars(c.rest);
        if more.Fail? then Fail else Read([c.value] + more.value, more.rest)
  }

  // ---- numbers ---------------------------------------------------------------------------

  function DigitsOf(s: string): (r: string)
    ensures AllDigits(r) && |r| <= |s| && s[..|r|] == r
  {
    if s != "" && IsDigit(s[0]) then [s[0]] + DigitsOf(s[1..]) else ""
  }

  /** An integer without sign; a fraction or an exponent is not read. */
  function Natural(s: string): (r: Parsed<nat>)
    ensures r.Read? ==> |r.rest| < |s|
  {
    var digits := DigitsOf(s);
    var rest := s[|digits|..];
    if digits == "" || (digits[0] == '0' && |digits| > 1) then Fail
    else if rest != "" && rest[0] in {'.', 'e', 'E'} then Fail
    else Read(Value(digits), rest)
  }

  // ---- values ----------------------------------------------------------------------------

  predicate Starts(s: string, c: char) {
    s != "" && s[0] == c
  }

  function Put(members: seq<Member>, m: Member): seq<Member> {
    if members == [] then [m]
    else if members[0].key == m.key then [m] + members[1..]
    else [members[0]] + Put(members[1..], m)
  }

  /** The dict of the pairs read. */
  function Collapse(members: seq<Member>): seq<Member> {
    if members == [] then [] else Put(Collapse(members[..|members| - 1]), members[|members| - 1])
  }

  /** A value after optional space. */
  function ReadValue(s: string): (r: Parsed<Json>)
    ensures r.Read? ==> |r.rest| < |s|
    decreases |s|, 2
  {
    ReadToken(SkipSpace(s))
  }

  function ReadNumber(s: string): (r: Parsed<Json>)
    requires s != ""
    ensures r.Read? ==> |r.rest| < |s|
  {
    var n := Natural(if s[0] == '-' then s[1..] else s);
    if n.Fail? then Fail else Read(Int(if s[0] == '-' then -(n.value as int) else n.value), n.rest)
  }

  function ReadWord(s: string): (r: Parsed<Json>)
    ensures r.Read? ==> |r.rest| < |s|
  {
    if "null" <= s then Read(Null, s[4..])
    else if "true" <= s then Read(Bool(true), s[4..])
    else if "false" <= s then Read(Bool(false), s[5..])
    else Fail
  }

  function ReadToken(s: string): (r: Parsed<Json>)
    ensures r.Read? ==> |r.rest| < |s|
    decreases |s|, 1
  {
    if s == "" then Fail
    else if s[0] == '"' then
      var text := Chars(s[1..]);
      if text.Fail? then Fail else Read(Str(text.value), text.rest)
    else if s[0] == '[' then
      if Starts(SkipSpace(s[1..]), ']') then Read(Arr([]), SkipSpace(s[1..])[1..])
      else
        var items := ReadItems(s[1..]);
        if items.Fail? then Fail else Read(Arr(items.value), items.rest)
    else if s[0] == '{' then
      if Starts(SkipSpace(s[1..]), '}') then Read(Obj([]), SkipSpace(s[1..])[1..])
      else
        var members := ReadMembers(s[1..]);
        if members.Fail? then Fail else Read(Obj(Collapse(members.value)), members.rest)
    else if s[0] == '-' || IsDigit(s[0]) then ReadNumber(s)
    else ReadWord(s)
  }

  /** The items up to the closing bracket, the opening one already read. */
  function ReadItems(s: string): (r: Parsed<seq<Json>>)
    ensures r.Read? ==> |r.rest| < |s|
    decreases |s|, 3
  {
    var v := ReadValue(s);
    if v.Fail? then Fail
    else
      var after := SkipSpace(v.rest);
      if Starts(after, ']') then Read([v.value], after[1..])
      else if !Starts(after, ',') then Fail
      else
        var more := ReadItems(after[1..]);
        if more.Fail? then Fail else Read([v.value] + more.value, more.rest)
  }

  /** A key and its colon. */
  function ReadKey(s: string): (r: Parsed<string>)
    ensures r.Read? ==> |r.rest| < |s|
  {
    var t := SkipSpace(s);
    if !Starts(t, '"') then Fail
    else
      var key := Chars(t[1..]);
      if key.Fail? || !Starts(SkipSpace(key.rest), ':') then Fail
      else Read(key.value, SkipSpace(key.rest)[1..])
  }

  function ReadMembers(s: string): (r: Parsed<seq<Member>>)
    ensures r.Read? ==> |r.rest| < |s|
    decreases |s|, 3
  {
    var key := ReadKey(s);
    if key.Fail? then Fail
    else
      var v := ReadValue(key.rest);
      if v.Fail? then Fail
      else
        var after := SkipSpace(v.rest);
        if Starts(after, '}') then Read([Member(key.value, v.value)], after[1..])
        else if !Starts(after, ',') then Fail
        else
          var more := ReadMembers(after[1..]);
          if more.Fail? then Fail else Read([Member(key.value, v.value)] + more.value, more.rest)
  }

  /** `json.loads`: one value and nothing but space after it. */
  function Loads(text: string): Result<Json> {
    var v := ReadValue(text);
    if v.Fail? || SkipSpace(v.rest) != "" then Failure else Success(v.value)
  }

  /** A value a Python program can hold: no object repeats a key. */
  predicate Dicts(v: Json) {
    match v
    case Arr(items) => forall i :: 0 <= i < |items| ==> Dicts(items[i])
    case Obj(members) =>
      && (forall i, k :: 0 <= i < k < |members| ==> members[i].key != members[k].key)
      && (forall i :: 0 <= i < |members| ==> Dicts(members[i].value))
    case _ => true
  }
}
