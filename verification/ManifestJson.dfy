/** The canonical printer of the program manifest (`format_manifest_json`) and the rewrite of
    `write_document`. Whatever layout is chosen, reading the text back gives the value. */
module ManifestJson {
  import opened Decimal
  import opened Json
  import opened Wrappers

  const INLINE_LIMIT: nat := 220

  // ---- json.dumps of scalars and keys ----------------------------------------------------

  function HexDigit(n: nat): (c: char)
    requires n < 16
    ensures IsHex(c) && HexValue(c) == n
  {
    if n < 10 then Digit(n) else 'a' + (n - 10) as char
  }

  /** One character inside a JSON string, with `ensure_ascii=False`. */
  function EscapeChar(c: char): string {
    match c
    case '"' => "\\\""
    case '\\' => "\\\\"
    case '\n' => "\\n"
    case '\r' => "\\r"
    case '\t' => "\\t"
    case '\U{C}' => "\\f"
    case '\U{8}' => "\\b"
    case _ => if c < ' ' then "\\u00" + [HexDigit(c as nat / 16), HexDigit(c as nat % 16)] else [c]
  }

  function Escape(s: string): string {
    if s == "" then "" else EscapeChar(s[0]) + Escape(s[1..])
  }

  function Quote(s: string): string {
    "\"" + Escape(s) + "\""
  }

  predicate Scalar(v: Json) {
    !v.Arr? && !v.Obj?
  }

  /** `json.dumps` of a scalar. */
  function Dumps(v: Json): string
    requires Scalar(v)
  {
    match v
    case Null => "null"
    case Bool(b) => if b then "true" else "false"
    case Int(n) => if n < 0 then "-" + Print(-n) else Print(n)
    case Str(s) => Quote(s)
  }

  // ---- layout ----------------------------------------------------------------------------

  function Pad(indent: nat): string {
    if indent == 0 then "" else "  " + Pad(indent - 1)
  }

  /** `sep.join(texts)`. */
  function Join(sep: string, texts: seq<string>): string {
    if texts == [] then "" else if |texts| == 1 then texts[0] else texts[0] + sep + Join(sep, texts[1..])
  }

  /** `_scalar_dict`, of an object's members. */
  predicate ScalarDict(members: seq<Member>) {
    forall i :: 0 <= i < |members| ==> Scalar(members[i].value)
  }

  predicate ScalarList(items: seq<Json>) {
    forall i :: 0 <= i < |items| ==> Scalar(items[i])
  }

  function InlineMembers(members: seq<Member>): seq<string>
    requires ScalarDict(members)
  {
    seq(|members|, i requires 0 <= i < |members| => Quote(members[i].key) + ": " + Dumps(members[i].value))
  }

  function InlineDict(members: seq<Member>): string
    requires ScalarDict(members)
  {
    "{" + Join(", ", InlineMembers(members)) + "}"
  }

  function InlineItems(items: seq<Json>): seq<string>
    requires ScalarList(items)
  {
    seq(|items|, i requires 0 <= i < |items| => Dumps(items[i]))
  }

  /** `format_manifest_json`. */
  function Format(v: Json, indent: nat): string
    decreases v, 1
  {
    match v
    case Obj(members) =>
      if members == [] then "{}"
      else if ScalarDict(members) && indent >= 2 && |InlineDict(members)| <= INLINE_LIMIT then InlineDict(members)
      else "{" + "\n" + Join(",\n", MemberLines(members, indent)) + "\n" + Pad(indent) + "}"
    case Arr(items) =>
      if items == [] then "[]"
      else if ScalarList(items) then "[" + Join(", ", InlineItems(items)) + "]"
      else "[" + "\n" + Join(",\n", ItemLines(items, indent)) + "\n" + Pad(indent) + "]"
    case _ => Dumps(v)
  }

  function MemberLines(members: seq<Member>, indent: nat): seq<string>
    decreases members, 0
  {
    if members == [] then []
    else [Pad(indent) + "  " + Quote(members[0].key) + ": " + Format(members[0].value, indent + 1)]
         + MemberLines(members[1..], indent)
  }

  function ItemLines(items: seq<Json>, indent: nat): seq<string>
    decreases items, 0
  {
    if items == [] then [] else [Pad(indent) + "  " + Format(items[0], indent + 1)] + ItemLines(items[1..], indent)
  }

  // ---- space -----------------------------------------------------------------------------

  predicate AllSpace(s: string) {
    forall i :: 0 <= i < |s| ==> Space(s[i])
  }

  lemma {:induction false} Skips(w: string, s: string)
    requires AllSpace(w)
    ensures SkipSpace(w + s) == SkipSpace(s)
  {
    if w == "" {
      assert w + s == s;
    } else {
      Skips(w[1..], s);
      assert (w + s)[0] == w[0] && (w + s)[1..] == w[1..] + s;
    }
  }

  lemma {:induction false} PadIsSpace(indent: nat)
    ensures AllSpace(Pad(indent))
  {
    if indent == 0 {
    } else {
      PadIsSpace(indent - 1);
    }
  }

  // ---- strings ---------------------------------------------------------------------------

  /** An escape sequence reads back as the character it stands for. */
  lemma EscapeReads(c: char, s: string)
    requires EscapeChar(c)[0] == '\\'
    ensures Unescape(EscapeChar(c)[1..] + s) == Read(c, s)
  {
    var e := EscapeChar(c)[1..];
    if |e| == 1 {
      assert (e + s)[0] == e[0] && (e + s)[1..] == s;
    } else {
      var hi, lo := HexDigit(c as nat / 16), HexDigit(c as nat % 16);
      assert e == ['u', '0', '0', hi, lo];
      assert (e + s)[5..] == s;
      assert HexValue('0') == 0;
      assert CodeUnit(e + s) == Read(c as nat, s);
    }
  }

  /** A character as it is printed reads back in front of what reads back. */
  lemma CharReads(c: char, tail: string, value: string, rest: string)
    requires Chars(tail) == Read(value, rest)
    ensures Chars(EscapeChar(c) + tail) == Read([c] + value, rest)
  {
    var e := EscapeChar(c);
    assert (e + tail)[0] == e[0] && (e + tail)[1..] == e[1..] + tail;
    if e[0] == '\\' {
      EscapeReads(c, tail);
    } else {
      assert e[1..] + tail == tail;
    }
  }

  lemma Regroup3(a: string, b: string, c: string, d: string)
    ensures (a + b) + c + d == a + (b + c + d)
  {
  }

  lemma {:induction false} StringReads(s: string, rest: string)
    ensures Chars(Escape(s) + "\"" + rest) == Read(s, rest)
  {
    if s == "" {
      assert Escape(s) + "\"" + rest == "\"" + rest;
      assert ("\"" + rest)[1..] == rest;
    } else {
      StringReads(s[1..], rest);
      CharReads(s[0], Escape(s[1..]) + "\"" + rest, s[1..], rest);
      Regroup3(EscapeChar(s[0]), Escape(s[1..]), "\"", rest);
      assert [s[0]] + s[1..] == s;
    }
  }

  lemma QuoteReads(s: string, rest: string)
    ensures ReadToken(Quote(s) + rest) == Read(Str(s), rest)
  {
    var text := Quote(s) + rest;
    StringReads(s, rest);
    assert text[0] == '\"' && text[1..] == Escape(s) + "\"" + rest;
  }

  // ---- numbers ---------------------------------------------------------------------------

  /** What may follow a number: nothing that would belong to it. */
  predicate Delimits(rest: string) {
    rest == "" || !(IsDigit(rest[0]) || rest[0] in {'.', 'e', 'E'})
  }

  lemma {:induction false} DigitsEnd(digits: string, rest: string)
    requires AllDigits(digits) && (rest == "" || !IsDigit(rest[0]))
    ensures DigitsOf(digits + rest) == digits
  {
    if digits == "" {
      assert digits + rest == rest;
    } else {
      DigitsEnd(digits[1..], rest);
      assert (digits + rest)[0] == digits[0] && (digits + rest)[1..] == digits[1..] + rest;
    }
  }

  lemma NaturalReads(n: nat, rest: string)
    requires Delimits(rest)
    ensures Natural(Print(n) + rest) == Read(n, rest)
  {
    DigitsEnd(Print(n), rest);
    PrintValue(n);
    NoLeadingZero(n);
    assert (Print(n) + rest)[|Print(n)|..] == rest;
  }

  lemma NegativeReads(n: nat, rest: string)
    requires Delimits(rest)
    ensures ReadToken("-" + Print(n) + rest) == Read(Int(-(n as int)), rest)
  {
    var s := "-" + Print(n) + rest;
    NaturalReads(n, rest);
    assert s[0] == '-' && s[1..] == Print(n) + rest;
    assert ReadNumber(s) == Read(Int(-(n as int)), rest);
  }

  lemma PositiveReads(n: nat, rest: string)
    requires Delimits(rest)
    ensures ReadToken(Print(n) + rest) == Read(Int(n), rest)
  {
    var s := Print(n) + rest;
    NaturalReads(n, rest);
    assert IsDigit(Print(n)[0]) && s[0] == Print(n)[0];
    assert ReadNumber(s) == Read(Int(n), rest);
  }

  lemma IntReads(n: int, rest: string)
    requires Delimits(rest)
    ensures ReadToken(Dumps(Int(n)) + rest) == Read(Int(n), rest)
  {
    if n < 0 {
      NegativeReads(-n, rest);
    } else {
      PositiveReads(n, rest);
    }
  }

  // ---- texts that read as values ---------------------------------------------------------

  /** In front of anything that may follow a value, the text reads as the value. */
  ghost predicate Renders(text: string, v: Json) {
    forall rest :: Delimits(rest) ==> ReadValue(text + rest) == Read(v, rest)
  }

  ghost predicate RendersMember(text: string, m: Member) {
    forall rest :: Delimits(rest) ==>
      var key := ReadKey(text + rest);
      key.Read? && key.value == m.key && ReadValue(key.rest) == Read(m.value, rest)
  }

  lemma ScalarRenders(v: Json)
    requires Scalar(v)
    ensures Renders(Dumps(v), v)
  {
    forall rest | Delimits(rest) ensures ReadValue(Dumps(v) + rest) == Read(v, rest) {
      var s := Dumps(v) + rest;
      assert s[0] == Dumps(v)[0];
      match v
      case Null => assert s[4..] == rest;
      case Bool(b) => assert s[|Dumps(v)|..] == rest;
      case Int(n) =>
        IntReads(n, rest);
        if n >= 0 { assert IsDigit(Print(n)[0]); }
      case Str(text) => QuoteReads(text, rest);
    }
  }

  lemma LeadRenders(w: string, text: string, v: Json)
    requires AllSpace(w) && Renders(text, v)
    ensures Renders(w + text, v)
  {
    forall rest | Delimits(rest) ensures ReadValue(w + text + rest) == Read(v, rest) {
      Skips(w, text + rest);
      assert w + text + rest == w + (text + rest);
      assert ReadValue(text + rest) == Read(v, rest);
    }
  }

  lemma QuoteTail(key: string, tail: string)
    ensures var s := Quote(key) + tail;
            SkipSpace(s) == s && Starts(s, '"') && s[1..] == Escape(key) + "\"" + tail
  {
  }

  lemma HeadTail<T>(s: seq<T>)
    requires s != []
    ensures s == [s[0]] + s[1..] && (|s| == 1 ==> s == [s[0]])
  {
  }

  lemma KeyReads(w: string, key: string, tail: string)
    requires AllSpace(w)
    ensures ReadKey(w + (Quote(key) + (":" + tail))) == Read(key, tail)
  {
    Skips(w, Quote(key) + (":" + tail));
    QuoteTail(key, ":" + tail);
    StringReads(key, ":" + tail);
    assert (":" + tail)[0] == ':' && (":" + tail)[1..] == tail;
  }

  lemma MemberText(w: string, quoted: string, text: string, rest: string)
    ensures w + quoted + ": " + text + rest == w + (quoted + (":" + (" " + (text + rest))))
  {
  }

  lemma SpaceSkips(s: string)
    ensures ReadValue(" " + s) == ReadValue(s)
  {
    Skips(" ", s);
  }

  lemma MemberReads(w: string, m: Member, text: string, rest: string)
    requires AllSpace(w) && ReadValue(text + rest) == Read(m.value, rest)
    ensures var key := ReadKey(w + Quote(m.key) + ": " + text + rest);
            key.Read? && key.value == m.key && ReadValue(key.rest) == Read(m.value, rest)
  {
    KeyReads(w, m.key, " " + (text + rest));
    SpaceSkips(text + rest);
    MemberText(w, Quote(m.key), text, rest);
  }

  lemma MemberRenders(w: string, m: Member, text: string)
    requires AllSpace(w) && Renders(text, m.value)
    ensures RendersMember(w + Quote(m.key) + ": " + text, m)
  {
    forall rest | Delimits(rest)
      ensures var key := ReadKey(w + Quote(m.key) + ": " + text + rest);
              key.Read? && key.value == m.key && ReadValue(key.rest) == Read(m.value, rest)
    {
      MemberReads(w, m, text, rest);
    }
  }

  // ---- lists of them ---------------------------------------------------------------------

  /** What closes a list: space, then the bracket. */
  lemma CloseDelimits(w: string, bracket: string, rest: string)
    requires AllSpace(w) && |bracket| == 1 && bracket[0] in {']', '}'}
    ensures Delimits(w + bracket + rest)
    ensures SkipSpace(w + bracket + rest) == bracket + rest
  {
    Skips(w, bracket + rest);
    assert w + bracket + rest == w + (bracket + rest);
    if w != "" { assert Space((w + bracket + rest)[0]); }
  }

  lemma ItemsSkip(w: string, s: string)
    requires AllSpace(w)
    ensures ReadItems(w + s) == ReadItems(s)
  {
    Skips(w, s);
  }

  lemma MembersSkip(w: string, s: string)
    requires AllSpace(w)
    ensures ReadMembers(w + s) == ReadMembers(s)
  {
    Skips(w, s);
  }

  lemma LastItem(v: Json, s: string, tail: string, rest: string)
    requires ReadValue(s) == Read(v, tail) && SkipSpace(tail) == "]" + rest
    ensures ReadItems(s) == Read([v], rest)
  {
    assert ("]" + rest)[1..] == rest;
  }

  lemma NextItem(v: Json, s: string, tail: string, more: seq<Json>, rest: string)
    requires ReadValue(s) == Read(v, "," + tail) && ReadItems(tail) == Read(more, rest)
    ensures ReadItems(s) == Read([v] + more, rest)
  {
    assert SkipSpace("," + tail) == "," + tail && ("," + tail)[1..] == tail;
  }

  lemma LastMember(m: Member, s: string, t: string, tail: string, rest: string)
    requires ReadKey(s) == Read(m.key, t) && ReadValue(t) == Read(m.value, tail) && SkipSpace(tail) == "}" + rest
    ensures ReadMembers(s) == Read([m], rest)
  {
    assert ("}" + rest)[1..] == rest;
  }

  lemma NextMember(m: Member, s: string, t: string, tail: string, more: seq<Member>, rest: string)
    requires ReadKey(s) == Read(m.key, t) && ReadValue(t) == Read(m.value, "," + tail)
        && ReadMembers(tail) == Read(more, rest)
    ensures ReadMembers(s) == Read([m] + more, rest)
  {
    assert SkipSpace("," + tail) == "," + tail && ("," + tail)[1..] == tail;
  }

  /** A joined list, and the texts after its first one. */
  lemma JoinStep(gap: string, texts: seq<string>, tail: string)
    requires |texts| > 1
    ensures Join("," + gap, texts) + tail == texts[0] + ("," + (gap + (Join("," + gap, texts[1..]) + tail)))
  {
  }

  lemma OneItemReads(v: Json, text: string, close: string, rest: string)
    requires AllSpace(close) && Renders(text, v)
    ensures ReadItems(text + (close + "]" + rest)) == Read([v], rest)
  {
    var tail := close + "]" + rest;
    CloseDelimits(close, "]", rest);
    LastItem(v, text + tail, tail, rest);
  }

  lemma MoreItemsRead(v: Json, text: string, gap: string, more: string, values: seq<Json>, rest: string)
    requires AllSpace(gap) && Renders(text, v) && ReadItems(more) == Read(values, rest)
    ensures ReadItems(text + ("," + (gap + more))) == Read([v] + values, rest)
  {
    ItemsSkip(gap, more);
    assert Delimits("," + (gap + more));
    NextItem(v, text + ("," + (gap + more)), gap + more, values, rest);
  }

  lemma {:induction false} ItemsRead(items: seq<Json>, texts: seq<string>, gap: string, close: string, rest: string)
    requires |items| == |texts| > 0 && AllSpace(gap) && AllSpace(close)
    requires forall i :: 0 <= i < |items| ==> Renders(texts[i], items[i])
    ensures ReadItems(Join("," + gap, texts) + (close + "]" + rest)) == Read(items, rest)
    decreases |items|
  {
    assert Renders(texts[0], items[0]);
    HeadTail(items);
    if |items| == 1 {
      OneItemReads(items[0], texts[0], close, rest);
    } else {
      var tail := close + "]" + rest;
      ItemsRead(items[1..], texts[1..], gap, close, rest);
      JoinStep(gap, texts, tail);
      MoreItemsRead(items[0], texts[0], gap, Join("," + gap, texts[1..]) + tail, items[1..], rest);
    }
  }

  lemma MemberAt(text: string, m: Member, rest: string) returns (t: string)
    requires RendersMember(text, m) && Delimits(rest)
    ensures ReadKey(text + rest) == Read(m.key, t) && ReadValue(t) == Read(m.value, rest)
  {
    t := ReadKey(text + rest).rest;
  }

  lemma OneMemberReads(m: Member, text: string, close: string, rest: string)
    requires AllSpace(close) && RendersMember(text, m)
    ensures ReadMembers(text + (close + "}" + rest)) == Read([m], rest)
  {
    var tail := close + "}" + rest;
    CloseDelimits(close, "}", rest);
    var t := MemberAt(text, m, tail);
    LastMember(m, text + tail, t, tail, rest);
  }

  lemma MoreMembersRead(m: Member, text: string, gap: string, more: string, members: seq<Member>, rest: string)
    requires AllSpace(gap) && RendersMember(text, m) && ReadMembers(more) == Read(members, rest)
    ensures ReadMembers(text + ("," + (gap + more))) == Read([m] + members, rest)
  {
    MembersSkip(gap, more);
    assert Delimits("," + (gap + more));
    var t := MemberAt(text, m, "," + (gap + more));
    NextMember(m, text + ("," + (gap + more)), t, gap + more, members, rest);
  }

  lemma {:induction false} MembersRead(members: seq<Member>, texts: seq<string>, gap: string, close: string,
          rest: string)
    requires |members| == |texts| > 0 && AllSpace(gap) && AllSpace(close)
    requires forall i :: 0 <= i < |members| ==> RendersMember(texts[i], members[i])
    ensures ReadMembers(Join("," + gap, texts) + (close + "}" + rest)) == Read(members, rest)
    decreases |members|
  {
    assert RendersMember(texts[0], members[0]);
    HeadTail(members);
    if |members| == 1 {
      OneMemberReads(members[0], texts[0], close, rest);
    } else {
      var tail := close + "}" + rest;
      MembersRead(members[1..], texts[1..], gap, close, rest);
      JoinStep(gap, texts, tail);
      MoreMembersRead(members[0], texts[0], gap, Join("," + gap, texts[1..]) + tail, members[1..], rest);
    }
  }

  /** A bracket is no value, so a list that starts with a value is not the empty list. */
  lemma BracketIsNoValue(s: string)
    requires Starts(s, ']') || Starts(s, '}')
    ensures ReadToken(s).Fail?
  {
    assert "null"[0] == 'n' && "true"[0] == 't' && "false"[0] == 'f';
    assert ReadWord(s).Fail?;
  }

  lemma ArrayToken(s: string, items: seq<Json>, rest: string)
    requires ReadItems(s) == Read(items, rest)
    ensures ReadToken("[" + s) == Read(Arr(items), rest)
  {
    if Starts(SkipSpace(s), ']') {
      BracketIsNoValue(SkipSpace(s));
    }
    assert ("[" + s)[1..] == s;
  }

  lemma ObjectToken(s: string, members: seq<Member>, rest: string)
    requires ReadMembers(s) == Read(members, rest)
    ensures ReadToken("{" + s) == Read(Obj(Collapse(members)), rest)
  {
    assert ReadKey(s).Read?;
    assert ("{" + s)[1..] == s;
  }

  lemma Regroup(left: string, open: string, body: string, close: string, right: string, rest: string)
    ensures left + open + body + close + right + rest == left + (open + (body + (close + right + rest)))
  {
  }

  lemma ArrayReads(items: seq<Json>, texts: seq<string>, open: string, gap: string, close: string, rest: string)
    requires |items| == |texts| > 0 && AllSpace(open) && AllSpace(gap) && AllSpace(close)
    requires forall i :: 0 <= i < |items| ==> Renders(texts[i], items[i])
    ensures ReadValue("[" + open + Join("," + gap, texts) + close + "]" + rest) == Read(Arr(items), rest)
  {
    var body := Join("," + gap, texts) + (close + "]" + rest);
    ItemsRead(items, texts, gap, close, rest);
    ItemsSkip(open, body);
    ArrayToken(open + body, items, rest);
    Regroup("[", open, Join("," + gap, texts), close, "]", rest);
  }

  lemma ArrayRenders(items: seq<Json>, texts: seq<string>, open: string, gap: string, sep: string, close: string)
    requires |items| == |texts| > 0 && AllSpace(open) && AllSpace(gap) && AllSpace(close) && sep == "," + gap
    requires forall i :: 0 <= i < |items| ==> Renders(texts[i], items[i])
    ensures Renders("[" + open + Join(sep, texts) + close + "]", Arr(items))
  {
    forall rest | Delimits(rest)
      ensures ReadValue("[" + open + Join(sep, texts) + close + "]" + rest) == Read(Arr(items), rest)
    {
      ArrayReads(items, texts, open, gap, close, rest);
    }
  }

  lemma ObjectBodyReads(members: seq<Member>, texts: seq<string>, open: string, gap: string, close: string,
          rest: string)
    requires |members| == |texts| > 0 && AllSpace(open) && AllSpace(gap) && AllSpace(close)
    requires forall i :: 0 <= i < |members| ==> RendersMember(texts[i], members[i])
    ensures ReadToken("{" + (open + (Join("," + gap, texts) + (close + "}" + rest))))
        == Read(Obj(Collapse(members)), rest)
  {
    var body := Join("," + gap, texts) + (close + "}" + rest);
    MembersRead(members, texts, gap, close, rest);
    MembersSkip(open, body);
    ObjectToken(open + body, members, rest);
  }

  lemma ObjectReads(members: seq<Member>, texts: seq<string>, open: string, gap: string, close: string, rest: string)
    requires |members| == |texts| > 0 && AllSpace(open) && AllSpace(gap) && AllSpace(close)
    requires forall i :: 0 <= i < |members| ==> RendersMember(texts[i], members[i])
    ensures ReadValue("{" + open + Join("," + gap, texts) + close + "}" + rest) == Read(Obj(Collapse(members)), rest)
  {
    ObjectBodyReads(members, texts, open, gap, close, rest);
    Regroup("{", open, Join("," + gap, texts), close, "}", rest);
  }

  lemma ObjectRenders(members: seq<Member>, texts: seq<string>, open: string, gap: string, sep: string, close: string)
    requires |members| == |texts| > 0 && AllSpace(open) && AllSpace(gap) && AllSpace(close) && sep == "," + gap
    requires Collapse(members) == members
    requires forall i :: 0 <= i < |members| ==> RendersMember(texts[i], members[i])
    ensures Renders("{" + open + Join(sep, texts) + close + "}", Obj(members))
  {
    forall rest | Delimits(rest)
      ensures ReadValue("{" + open + Join(sep, texts) + close + "}" + rest) == Read(Obj(members), rest)
    {
      ObjectReads(members, texts, open, gap, close, rest);
    }
  }

  ghost predicate DistinctKeys(members: seq<Member>) {
    forall i, k :: 0 <= i < k < |members| ==> members[i].key != members[k].key
  }

  lemma {:induction false} PutNew(members: seq<Member>, m: Member)
    requires forall i :: 0 <= i < |members| ==> members[i].key != m.key
    ensures Put(members, m) == members + [m]
  {
    if members == [] {
    } else {
      PutNew(members[1..], m);
      assert members == [members[0]] + members[1..];
    }
  }

  lemma {:induction false} DictIsKept(members: seq<Member>)
    requires DistinctKeys(members)
    ensures Collapse(members) == members
  {
    if members == [] {
    } else {
      var before := members[..|members| - 1];
      DictIsKept(before);
      PutNew(before, members[|members| - 1]);
    }
  }

  // ---- the round trip --------------------------------------------------------------------

  lemma EmptyRenders(v: Json)
    requires v == Arr([]) || v == Obj([])
    ensures Renders(if v.Arr? then "[]" else "{}", v)
  {
    var text := if v.Arr? then "[]" else "{}";
    forall rest | Delimits(rest) ensures ReadValue(text + rest) == Read(v, rest) {
      assert (text + rest)[1..] == text[1..] + rest;
      assert (text[1..] + rest)[1..] == rest;
    }
  }

  lemma NoSpaces(left: string, body: string, right: string)
    ensures left + "" + body + "" + right == left + body + right
  {
  }

  lemma InlineListRenders(items: seq<Json>)
    requires items != [] && ScalarList(items)
    ensures Renders("[" + Join(", ", InlineItems(items)) + "]", Arr(items))
  {
    var texts := InlineItems(items);
    forall i | 0 <= i < |items| ensures Renders(texts[i], items[i]) { ScalarRenders(items[i]); }
    ArrayRenders(items, texts, "", " ", ", ", "");
    NoSpaces("[", Join(", ", texts), "]");
  }

  lemma InlineMemberRenders(m: Member)
    requires Scalar(m.value)
    ensures RendersMember(Quote(m.key) + ": " + Dumps(m.value), m)
  {
    ScalarRenders(m.value);
    MemberRenders("", m, Dumps(m.value));
    assert "" + Quote(m.key) + ": " + Dumps(m.value) == Quote(m.key) + ": " + Dumps(m.value);
  }

  lemma InlineDictRenders(members: seq<Member>)
    requires members != [] && ScalarDict(members) && DistinctKeys(members)
    ensures Renders(InlineDict(members), Obj(members))
  {
    var texts := InlineMembers(members);
    forall i | 0 <= i < |members| ensures RendersMember(texts[i], members[i]) { InlineMemberRenders(members[i]); }
    DictIsKept(members);
    ObjectRenders(members, texts, "", " ", ", ", "");
    NoSpaces("{", Join(", ", texts), "}");
  }

  lemma LineBreaks(left: string, body: string, pad: string, right: string)
    ensures left + "\n" + body + ("\n" + pad) + right == left + "\n" + body + "\n" + pad + right
  {
  }

  /** Every layout of every value reads back as the value. */
  lemma {:induction false} FormatRenders(v: Json, indent: nat)
    requires Dicts(v)
    ensures Renders(Format(v, indent), v)
    decreases v, 1
  {
    match v
    case Obj(members) =>
      if members == [] {
        EmptyRenders(v);
      } else if ScalarDict(members) && indent >= 2 && |InlineDict(members)| <= INLINE_LIMIT {
        InlineDictRenders(members);
      } else {
        var texts := MemberLines(members, indent);
        MemberLinesRender(members, indent);
        DictIsKept(members);
        PadIsSpace(indent);
        ObjectRenders(members, texts, "\n", "\n", ",\n", "\n" + Pad(indent));
        LineBreaks("{", Join(",\n", texts), Pad(indent), "}");
      }
    case Arr(items) =>
      if items == [] {
        EmptyRenders(v);
      } else if ScalarList(items) {
        InlineListRenders(items);
      } else {
        var texts := ItemLines(items, indent);
        ItemLinesRender(items, indent);
        PadIsSpace(indent);
        ArrayRenders(items, texts, "\n", "\n", ",\n", "\n" + Pad(indent));
        LineBreaks("[", Join(",\n", texts), Pad(indent), "]");
      }
    case _ => ScalarRenders(v);
  }

  lemma {:induction false} MemberLinesRender(members: seq<Member>, indent: nat)
    requires forall i :: 0 <= i < |members| ==> Dicts(members[i].value)
    ensures var texts := MemberLines(members, indent);
            |texts| == |members| && forall i :: 0 <= i < |members| ==> RendersMember(texts[i], members[i])
    decreases members, 0
  {
    if members == [] {
    } else {
      var m := members[0];
      FormatRenders(m.value, indent + 1);
      PadIsSpace(indent);
      MemberRenders(Pad(indent) + "  ", m, Format(m.value, indent + 1));
      MemberLinesRender(members[1..], indent);
    }
  }

  lemma {:induction false} ItemLinesRender(items: seq<Json>, indent: nat)
    requires forall i :: 0 <= i < |items| ==> Dicts(items[i])
    ensures var texts := ItemLines(items, indent);
            |texts| == |items| && forall i :: 0 <= i < |items| ==> Renders(texts[i], items[i])
    decreases items, 0
  {
    if items == [] {
    } else {
      FormatRenders(items[0], indent + 1);
      PadIsSpace(indent);
      LeadRenders(Pad(indent) + "  ", Format(items[0], indent + 1), items[0]);
      ItemLinesRender(items[1..], indent);
    }
  }

  /** Reading what was printed gives back the value, key order included, at any indent. */
  lemma RoundTrip(v: Json, indent: nat)
    requires Dicts(v)
    ensures Loads(Format(v, indent)) == Success(v) && Loads(Format(v, indent) + "\n") == Success(v)
  {
    FormatRenders(v, indent);
    assert Format(v, indent) + "" == Format(v, indent);
    assert ReadValue(Format(v, indent) + "") == Read(v, "");
    assert ReadValue(Format(v, indent) + "\n") == Read(v, "\n");
  }

  // ---- what the reader returns -----------------------------------------------------------

  lemma OneMoreKey(x: Member, rest: seq<Member>)
    requires DistinctKeys(rest) && forall y :: y in rest ==> y.key != x.key
    ensures DistinctKeys([x] + rest)
  {
  }

  lemma HeadIsAlone(members: seq<Member>, y: Member)
    requires DistinctKeys(members) && members != [] && y in members[1..]
    ensures y.key != members[0].key
  {
    var k :| 0 <= k < |members[1..]| && members[1..][k] == y;
    assert members[k + 1] == y;
  }

  lemma {:induction false} PutKeepsDict(members: seq<Member>, m: Member)
    requires DistinctKeys(members)
    ensures DistinctKeys(Put(members, m))
    ensures forall x :: x in Put(members, m) <==> x == m || (x in members && x.key != m.key)
  {
    if members == [] {
    } else {
      var rest := members[1..];
      assert members == [members[0]] + rest;
      forall y | y in rest ensures y.key != members[0].key {
        HeadIsAlone(members, y);
      }
      if members[0].key == m.key {
        OneMoreKey(m, rest);
      } else {
        PutKeepsDict(rest, m);
        OneMoreKey(members[0], Put(rest, m));
      }
    }
  }

  lemma {:induction false} CollapseIsADict(members: seq<Member>)
    ensures DistinctKeys(Collapse(members)) && forall x :: x in Collapse(members) ==> x in members
  {
    if members == [] {
    } else {
      CollapseIsADict(members[..|members| - 1]);
      PutKeepsDict(Collapse(members[..|members| - 1]), members[|members| - 1]);
    }
  }

  lemma {:induction false} TokenIsDict(s: string)
    ensures ReadToken(s).Read? ==> Dicts(ReadToken(s).value)
    decreases |s|, 1
  {
    if ReadToken(s).Read? {
      if s[0] == '[' {
        ItemsAreDicts(s[1..]);
      } else if s[0] == '{' {
        MembersAreDicts(s[1..]);
        var members := ReadMembers(s[1..]);
        if members.Read? {
          CollapseIsADict(members.value);
          forall i | 0 <= i < |Collapse(members.value)| ensures Dicts(Collapse(members.value)[i].value) {
            assert Collapse(members.value)[i] in members.value;
          }
        }
      }
    }
  }

  lemma {:induction false} ItemsAreDicts(s: string)
    ensures ReadItems(s).Read? ==> forall i :: 0 <= i < |ReadItems(s).value| ==> Dicts(ReadItems(s).value[i])
    decreases |s|, 3
  {
    TokenIsDict(SkipSpace(s));
    var v := ReadValue(s);
    if v.Read? && Starts(SkipSpace(v.rest), ',') {
      ItemsAreDicts(SkipSpace(v.rest)[1..]);
    }
  }

  lemma {:induction false} MembersAreDicts(s: string)
    ensures ReadMembers(s).Read? ==> forall x :: x in ReadMembers(s).value ==> Dicts(x.value)
    decreases |s|, 3
  {
    var key := ReadKey(s);
    if key.Read? {
      TokenIsDict(SkipSpace(key.rest));
      var v := ReadValue(key.rest);
      if v.Read? && Starts(SkipSpace(v.rest), ',') {
        MembersAreDicts(SkipSpace(v.rest)[1..]);
      }
    }
  }

  lemma LoadedIsDict(text: string)
    requires Loads(text).Success?
    ensures Dicts(Loads(text).value)
  {
    TokenIsDict(SkipSpace(text));
  }

  // ---- write_document --------------------------------------------------------------------

  const MIRROR_KEY: string := "contract_registry"

  /** The document with its mirror of the contract registry refreshed, when the registry file
      was read (`mirror` is what it says); only an object can take it. */
  function Refresh(data: Json, mirror: Result<Json>): Result<Json> {
    if mirror.Failure? then Success(data)
    else if data.Obj? then Success(Obj(Put(data.members, Member(MIRROR_KEY, mirror.value))))
    else Failure
  }

  /** The manifest text `write_document` leaves. */
  function Rewrite(text: string, mirror: Result<Json>): Result<string> {
    var data := Loads(text);
    if data.Failure? then Failure
    else
      var fresher := Refresh(data.value, mirror);
      if fresher.Failure? then Failure else Success(Format(fresher.value, 0) + "\n")
  }

  lemma {:induction false} PutTwice(members: seq<Member>, m: Member)
    ensures Put(Put(members, m), m) == Put(members, m)
  {
    if members != [] && members[0].key != m.key {
      PutTwice(members[1..], m);
      var r := Put(members, m);
      assert r[0] == members[0] && r[1..] == Put(members[1..], m);
    }
  }

  lemma RefreshIsDict(data: Json, mirror: Result<Json>)
    requires Dicts(data) && (mirror.Success? ==> Dicts(mirror.value)) && Refresh(data, mirror).Success?
    ensures Dicts(Refresh(data, mirror).value)
    ensures Refresh(Refresh(data, mirror).value, mirror) == Refresh(data, mirror)
  {
    if mirror.Success? {
      var m := Member(MIRROR_KEY, mirror.value);
      PutKeepsDict(data.members, m);
      PutTwice(data.members, m);
      var r := Put(data.members, m);
      forall i | 0 <= i < |r| ensures Dicts(r[i].value) {
        assert r[i] in r;
      }
    }
  }

  /** Rewriting says what was there, with the mirror refreshed, and rewriting again changes no
      byte: whatever layout the author used, however often a key was repeated. */
  lemma RewriteIsIdempotent(text: string, mirror: Result<Json>)
    requires Rewrite(text, mirror).Success? && (mirror.Success? ==> Dicts(mirror.value))
    ensures var written := Rewrite(text, mirror).value;
            && Loads(written) == Refresh(Loads(text).value, mirror)
            && Rewrite(written, mirror) == Success(written)
  {
    var data := Loads(text).value;
    LoadedIsDict(text);
    RefreshIsDict(data, mirror);
    RoundTrip(Refresh(data, mirror).value, 0);
  }
}
