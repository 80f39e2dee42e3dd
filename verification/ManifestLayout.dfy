/** How `format_manifest_json` lays a value out: what stays on one line, and how far every
    other line is indented. */
module ManifestLayout {
  import opened Decimal
  import opened Json
  import opened ManifestJson

  ghost predicate Flat(s: string) {
    forall i :: 0 <= i < |s| ==> s[i] != '\n'
  }

  /** "scalar lists and short scalar objects stay inline": short is 220 characters, and an
      object stays inline from the second level down only. */
  predicate StaysInline(v: Json, indent: nat) {
    match v
    case Obj(members) =>
      members == [] || (ScalarDict(members) && indent >= 2 && |InlineDict(members)| <= INLINE_LIMIT)
    case Arr(items) => ScalarList(items)
    case _ => true
  }

  /** Every line after the first starts with this indentation at least. */
  ghost predicate Indented(s: string, pad: string) {
    forall i :: 0 <= i < |s| && s[i] == '\n' ==> pad <= s[i + 1..]
  }

  // ---- one line ---------------------------------------------------------------------------

  lemma {:induction false} EscapeIsFlat(s: string)
    ensures Flat(Escape(s))
  {
    if s == "" {
    } else {
      EscapeIsFlat(s[1..]);
      assert Flat(EscapeChar(s[0]));
    }
  }

  lemma {:induction false} DigitsAreFlat(s: string)
    requires AllDigits(s)
    ensures Flat(s)
  {
    if s == "" {
    } else {
      DigitsAreFlat(s[1..]);
      assert s == [s[0]] + s[1..];
    }
  }

  lemma DumpsIsFlat(v: Json)
    requires Scalar(v)
    ensures Flat(Dumps(v))
  {
    match v
    case Str(s) => EscapeIsFlat(s);
    case Int(n) => DigitsAreFlat(Print(if n < 0 then -n else n));
    case _ =>
  }

  lemma {:induction false} JoinIsFlat(sep: string, texts: seq<string>)
    requires Flat(sep) && forall i :: 0 <= i < |texts| ==> Flat(texts[i])
    ensures Flat(Join(sep, texts))
  {
    if |texts| <= 1 {
    } else {
      JoinIsFlat(sep, texts[1..]);
    }
  }

  lemma InlineDictIsFlat(members: seq<Member>)
    requires ScalarDict(members)
    ensures Flat(InlineDict(members))
  {
    var texts := InlineMembers(members);
    forall i | 0 <= i < |texts| ensures Flat(texts[i]) {
      EscapeIsFlat(members[i].key);
      DumpsIsFlat(members[i].value);
    }
    JoinIsFlat(", ", texts);
  }

  lemma InlineListIsFlat(items: seq<Json>)
    requires ScalarList(items)
    ensures Flat("[" + Join(", ", InlineItems(items)) + "]")
  {
    var texts := InlineItems(items);
    forall i | 0 <= i < |texts| ensures Flat(texts[i]) {
      DumpsIsFlat(items[i]);
    }
    JoinIsFlat(", ", texts);
  }

  /** A value takes one line exactly when it stays inline. */
  lemma OneLineIff(v: Json, indent: nat)
    ensures Flat(Format(v, indent)) <==> StaysInline(v, indent)
  {
    var text := Format(v, indent);
    match v
    case Obj(members) =>
      if ScalarDict(members) {
        InlineDictIsFlat(members);
      }
      if !StaysInline(v, indent) {
        assert text[1] == '\n';
      }
    case Arr(items) =>
      if ScalarList(items) {
        InlineListIsFlat(items);
      }
      if !StaysInline(v, indent) {
        assert text[1] == '\n';
      }
    case _ => DumpsIsFlat(v);
  }

  // ---- indentation ------------------------------------------------------------------------

  lemma AtEitherEnd(two: string, before: string, pad: string, after: string)
    requires pad == two + before && pad == before + two && after == two + pad && Flat(two) && Flat(before)
    ensures after == pad + two && pad <= after && Flat(pad)
  {
    assert two + (before + two) == (two + before) + two;
  }

  lemma {:induction false} PadGrows(indent: nat)
    ensures Pad(indent + 1) == Pad(indent) + "  " && Pad(indent) <= Pad(indent + 1) && Flat(Pad(indent))
  {
    if indent == 0 {
      assert Pad(1) == "  " + "";
    } else {
      PadGrows(indent - 1);
      AtEitherEnd("  ", Pad(indent - 1), Pad(indent), Pad(indent + 1));
    }
  }

  lemma DeeperIsIndented(s: string, indent: nat)
    requires Indented(s, Pad(indent + 1))
    ensures Indented(s, Pad(indent))
  {
    PadGrows(indent);
  }

  lemma FlatIsIndented(s: string, pad: string)
    requires Flat(s)
    ensures Indented(s, pad)
  {
  }

  lemma ConcatIsIndented(a: string, b: string, pad: string)
    requires Indented(a, pad) && Indented(b, pad)
    ensures Indented(a + b, pad)
  {
    var s := a + b;
    forall i | 0 <= i < |s| && s[i] == '\n' ensures pad <= s[i + 1..] {
      if i < |a| {
        assert s[i + 1..] == a[i + 1..] + b;
      } else {
        assert s[i + 1..] == b[i - |a| + 1..];
      }
    }
  }

  /** A line: the indentation, then something indented. */
  ghost predicate Line(s: string, pad: string) {
    pad <= s && Indented(s, pad)
  }

  /** A line break before a line. */
  lemma BreakIsIndented(s: string, t: string, pad: string)
    requires Line(s, pad) && t == "\n" + s
    ensures Indented(t, pad)
  {
    forall i | 0 <= i < |t| && t[i] == '\n' ensures pad <= t[i + 1..] {
      if i == 0 {
        assert t[1..] == s;
      } else {
        assert s[i - 1] == t[i] && t[i + 1..] == s[i..];
      }
    }
  }

  /** A line, a comma, and the lines after it. */
  lemma LinesGoOn(line: string, rest: string, all: string, pad: string)
    requires Line(line, pad) && Line(rest, pad) && all == line + ",\n" + rest
    ensures Line(all, pad)
  {
    var broken := "\n" + rest;
    BreakIsIndented(rest, broken, pad);
    FlatIsIndented(",", pad);
    ConcatIsIndented(line, ",", pad);
    ConcatIsIndented(line + ",", broken, pad);
    assert all == (line + ",") + broken;
    assert all[..|pad|] == line[..|pad|];
  }

  lemma {:induction false} JoinIsIndented(texts: seq<string>, pad: string)
    requires texts != [] && forall i :: 0 <= i < |texts| ==> Line(texts[i], pad)
    ensures Line(Join(",\n", texts), pad)
  {
    assert Line(texts[0], pad);
    if |texts| == 1 {
    } else {
      JoinIsIndented(texts[1..], pad);
      LinesGoOn(texts[0], Join(",\n", texts[1..]), Join(",\n", texts), pad);
    }
  }

  /** A block: its opening bracket, its lines one level deeper, its bracket at its own level. */
  ghost predicate Block(s: string, open: string, lines: string, close: string, indent: nat) {
    s == open + "\n" + lines + "\n" + Pad(indent) + close && Line(lines, Pad(indent + 1))
  }

  lemma LineIsDeeper(lines: string, indent: nat)
    requires Line(lines, Pad(indent + 1))
    ensures Line(lines, Pad(indent))
  {
    PadGrows(indent);
    DeeperIsIndented(lines, indent);
    assert lines[..|Pad(indent)|] == Pad(indent + 1)[..|Pad(indent)|];
  }

  lemma BracketsAreIndented(s: string, open: string, lines: string, close: string, pad: string)
    requires s == open + "\n" + lines + "\n" + pad + close
    requires Line(lines, pad) && Flat(open) && Flat(pad) && Flat(close)
    ensures Indented(s, pad)
  {
    var first, last := "\n" + lines, "\n" + (pad + close);
    BreakIsIndented(lines, first, pad);
    FlatIsIndented(pad + close, pad);
    BreakIsIndented(pad + close, last, pad);
    FlatIsIndented(open, pad);
    ConcatIsIndented(open, first, pad);
    ConcatIsIndented(open + first, last, pad);
    assert s == (open + first) + last;
  }

  lemma BlockIsIndented(s: string, open: string, lines: string, close: string, indent: nat)
    requires Block(s, open, lines, close, indent) && Flat(open) && Flat(close)
    ensures Indented(s, Pad(indent))
  {
    PadGrows(indent);
    LineIsDeeper(lines, indent);
    BracketsAreIndented(s, open, lines, close, Pad(indent));
  }

  lemma LineOfText(indent: nat, head: string, text: string)
    requires Flat(head) && Indented(text, Pad(indent + 1))
    ensures Line(Pad(indent) + "  " + head + text, Pad(indent + 1))
  {
    PadGrows(indent);
    PadGrows(indent + 1);
    var start := Pad(indent + 1) + head;
    FlatIsIndented(start, Pad(indent + 1));
    ConcatIsIndented(start, text, Pad(indent + 1));
    assert Pad(indent) + "  " + head + text == start + text;
  }

  lemma Regroup4(a: string, b: string, c: string, d: string, e: string)
    ensures a + b + (c + d) + e == a + b + c + d + e
  {
  }

  lemma MemberLine(m: Member, indent: nat)
    requires Indented(Format(m.value, indent + 1), Pad(indent + 1))
    ensures Line(Pad(indent) + "  " + Quote(m.key) + ": " + Format(m.value, indent + 1), Pad(indent + 1))
  {
    EscapeIsFlat(m.key);
    var head := Quote(m.key) + ": ";
    var text := Format(m.value, indent + 1);
    LineOfText(indent, head, text);
    Regroup4(Pad(indent), "  ", Quote(m.key), ": ", text);
  }

  lemma ItemLine(item: Json, indent: nat)
    requires Indented(Format(item, indent + 1), Pad(indent + 1))
    ensures Line(Pad(indent) + "  " + Format(item, indent + 1), Pad(indent + 1))
  {
    LineOfText(indent, "", Format(item, indent + 1));
    assert Pad(indent) + "  " + "" == Pad(indent) + "  ";
  }

  lemma BlockText(v: Json, indent: nat)
    requires !StaysInline(v, indent)
    ensures v.Obj? ==>
              Format(v, indent) == "{" + "\n" + Join(",\n", MemberLines(v.members, indent)) + "\n" + Pad(indent) + "}"
    ensures v.Arr? ==>
              Format(v, indent) == "[" + "\n" + Join(",\n", ItemLines(v.items, indent)) + "\n" + Pad(indent) + "]"
    ensures v.Obj? || v.Arr?
  {
  }

  lemma {:induction false} FormatIsIndented(v: Json, indent: nat)
    ensures Indented(Format(v, indent), Pad(indent))
    decreases v, 1
  {
    OneLineIff(v, indent);
    if StaysInline(v, indent) {
      FlatIsIndented(Format(v, indent), Pad(indent));
    } else {
      var open, lines, close := FormatIsABlock(v, indent);
      BlockIsIndented(Format(v, indent), open, lines, close, indent);
    }
  }

  /** What does not stay inline is a block: between its brackets every line is indented one
      level deeper, and the closing bracket stands at the block's own level. */
  lemma {:induction false} FormatIsABlock(v: Json, indent: nat) returns (open: string, lines: string, close: string)
    requires !StaysInline(v, indent)
    ensures (v.Obj? && open == "{" && close == "}") || (v.Arr? && open == "[" && close == "]")
    ensures Block(Format(v, indent), open, lines, close, indent)
    decreases v, 0
  {
    BlockText(v, indent);
    match v
    case Obj(members) =>
      var texts := MemberLines(members, indent);
      MemberLinesAreIndented(members, indent);
      JoinIsIndented(texts, Pad(indent + 1));
      open, lines, close := "{", Join(",\n", texts), "}";
    case Arr(items) =>
      var texts := ItemLines(items, indent);
      ItemLinesAreIndented(items, indent);
      JoinIsIndented(texts, Pad(indent + 1));
      open, lines, close := "[", Join(",\n", texts), "]";
  }

  lemma {:induction false} MemberLinesAreIndented(members: seq<Member>, indent: nat)
    ensures var texts := MemberLines(members, indent);
            |texts| == |members| && forall i :: 0 <= i < |texts| ==> Line(texts[i], Pad(indent + 1))
    decreases members, 0
  {
    if members == [] {
    } else {
      FormatIsIndented(members[0].value, indent + 1);
      MemberLine(members[0], indent);
      MemberLinesAreIndented(members[1..], indent);
    }
  }

  lemma {:induction false} ItemLinesAreIndented(items: seq<Json>, indent: nat)
    ensures var texts := ItemLines(items, indent);
            |texts| == |items| && forall i :: 0 <= i < |texts| ==> Line(texts[i], Pad(indent + 1))
    decreases items, 0
  {
    if items == [] {
    } else {
      FormatIsIndented(items[0], indent + 1);
      ItemLine(items[0], indent);
      ItemLinesAreIndented(items[1..], indent);
    }
  }
}
