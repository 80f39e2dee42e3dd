/** The answer of `git cat-file --batch` and the loop that takes it apart (`History._cat`).
    Bytes are written as characters; a blob's content is any run of them, newlines included. */
module Framing {
  import Decimal

  /** "<sha> <kind> <size>", the content, a newline; or "<sha> missing". */
  datatype Record = Found(sha: string, kind: string, content: string) | Missing(sha: string, word: string)

  /** What `bytes.split()` breaks at. */
  predicate IsBlank(c: char) {
    c == ' ' || '\t' <= c <= '\r'
  }

  predicate Word(s: string) {
    s != "" && forall i :: 0 <= i < |s| ==> !IsBlank(s[i])
  }

  predicate WellFormed(r: Record) {
    Word(r.sha) && if r.Found? then Word(r.kind) else Word(r.word)
  }

  function Header(r: Record): string {
    if r.Found? then r.sha + " " + r.kind + " " + Decimal.Print(|r.content|) else r.sha + " " + r.word
  }

  function Body(r: Record): string {
    if r.Found? then r.content + "\n" else ""
  }

  /** What git writes for the records. */
  function Stream(records: seq<Record>): string {
    if records == [] then "" else Header(records[0]) + "\n" + Body(records[0]) + Stream(records[1..])
  }

  /** `out.index("\n", pos)`, when there is one. */
  function IndexOf(out: string, pos: nat): (r: int)
    requires pos <= |out|
    ensures r == -1 || (pos <= r < |out| && out[r] == '\n')
    ensures forall i :: pos <= i < (if r == -1 then |out| else r) ==> out[i] != '\n'
    decreases |out| - pos
  {
    if pos == |out| then -1 else if out[pos] == '\n' then pos else IndexOf(out, pos + 1)
  }

  /** The first word and what follows it. */
  function FirstWord(s: string): (string, string) {
    if s == "" || IsBlank(s[0]) then ("", s) else var (w, rest) := FirstWord(s[1..]); ([s[0]] + w, rest)
  }

  lemma {:induction false} FirstWordLen(s: string)
    ensures |FirstWord(s).0| + |FirstWord(s).1| == |s|
  {
    if s != "" && !IsBlank(s[0]) { FirstWordLen(s[1..]); }
  }

  /** `bytes.split()`. */
  function Split(s: string): seq<string>
    decreases |s|
  {
    if s == "" then [] else if IsBlank(s[0]) then Split(s[1..])
    else
      FirstWordLen(s);
      FirstWordLen(s[1..]);
      [FirstWord(s).0] + Split(FirstWord(s).1)
  }

  function Noted(found: map<string, string>, r: Record): map<string, string> {
    if r.Found? && r.kind == "blob" then found[r.sha := r.content] else found
  }

  /** The blobs by name, a later record of the same name winning, as dict assignment does. */
  function Blobs(records: seq<Record>): map<string, string> {
    if records == [] then map[] else
      Noted(Blobs(records[..|records| - 1]), records[|records| - 1])
  }

  // ---- splitting a header ----------------------------------------------------------------

  lemma {:induction false} FirstWordOf(w: string, rest: string)
    requires Word(w) && (rest == "" || IsBlank(rest[0]))
    ensures FirstWord(w + rest) == (w, rest)
  {
    if |w| == 1 {
      assert (w + rest)[0] == w[0] && (w + rest)[1..] == rest;
      assert FirstWord(rest) == ("", rest);
      assert [w[0]] + "" == w;
    } else {
      FirstWordOf(w[1..], rest);
      assert (w + rest)[0] == w[0] && (w + rest)[1..] == w[1..] + rest;
      assert [w[0]] + w[1..] == w;
    }
  }

  lemma SplitWord(w: string, rest: string)
    requires Word(w)
    ensures Split(w) == [w]
    ensures Split(w + " " + rest) == [w] + Split(rest)
  {
    FirstWordOf(w, "");
    assert w + "" == w;
    FirstWordOf(w, " " + rest);
    assert w + " " + rest == w + (" " + rest);
    assert (" " + rest)[1..] == rest;
  }

  lemma PrintIsWord(n: nat)
    ensures Word(Decimal.Print(n))
  {
    var s := Decimal.Print(n);
    forall i | 0 <= i < |s| ensures !IsBlank(s[i]) {
      assert Decimal.IsDigit(s[i]);
    }
  }

  lemma SplitHeader(r: Record)
    requires WellFormed(r)
    ensures Split(Header(r)) ==
            if r.Found? then [r.sha, r.kind, Decimal.Print(|r.content|)] else [r.sha, r.word]
  {
    if r.Found? {
      var size := Decimal.Print(|r.content|);
      PrintIsWord(|r.content|);
      SplitWord(size, "");
      SplitWord(r.kind, size);
      SplitWord(r.sha, r.kind + " " + size);
      assert Header(r) == r.sha + " " + (r.kind + " " + size);
    } else {
      SplitWord(r.word, "");
      SplitWord(r.sha, r.word);
    }
  }

  lemma HeaderIsALine(r: Record)
    requires WellFormed(r)
    ensures forall i :: 0 <= i < |Header(r)| ==> Header(r)[i] != '\n'
  {
    if r.Found? {
      PrintIsWord(|r.content|);
    }
  }

  lemma Slice(out: string, pos: nat, a: string, b: string)
    requires pos <= |out| && out[pos..] == a + b
    ensures pos + |a| <= |out| && out[pos..pos + |a|] == a && out[pos + |a|..] == b
  {
    assert out[pos..pos + |a|] == out[pos..][..|a|];
    assert out[pos + |a|..] == out[pos..][|a|..];
  }

  /** The line at `pos` ends at the first newline found from there. */
  lemma LineAt(out: string, pos: nat, line: string, tail: string)
    requires pos <= |out| && out[pos..] == line + ("\n" + tail)
    requires forall i :: 0 <= i < |line| ==> line[i] != '\n'
    ensures IndexOf(out, pos) == pos + |line| < |out|
    ensures out[pos..pos + |line|] == line && out[pos + |line| + 1..] == tail
  {
    Slice(out, pos, line, "\n" + tail);
    Slice(out, pos + |line|, "\n", tail);
    assert out[pos + |line|] == out[pos + |line|..][0];
    forall i | pos <= i < pos + |line| ensures out[i] != '\n' {
      assert out[i] == out[pos..pos + |line|][i - pos];
    }
  }

  lemma Regroup(h: string, b: string, t: string)
    ensures h + "\n" + b + t == h + ("\n" + (b + t))
  {
  }

  lemma StreamHead(records: seq<Record>)
    requires records != []
    ensures Stream(records) == Header(records[0]) + ("\n" + (Body(records[0]) + Stream(records[1..])))
  {
    Regroup(Header(records[0]), Body(records[0]), Stream(records[1..]));
  }

  /** What follows a header: the content of the stated size, a newline, the next record. */
  lemma ContentAt(out: string, pos: nat, content: string, tail: string)
    requires pos <= |out| && out[pos..] == content + "\n" + tail
    ensures pos + |content| + 1 <= |out|
    ensures out[pos..pos + |content|] == content && out[pos + |content| + 1..] == tail
  {
    assert content + "\n" + tail == content + ("\n" + tail);
    Slice(out, pos, content, "\n" + tail);
    Slice(out, pos + |content|, "\n", tail);
  }

  ghost predicate HeadReads(out: string, pos: nat, r: Record)
    requires pos <= |out|
  {
    && IndexOf(out, pos) == pos + |Header(r)| < |out|
    && Split(out[pos..IndexOf(out, pos)])
       == if r.Found? then [r.sha, r.kind, Decimal.Print(|r.content|)] else [r.sha, r.word]
  }

  ghost predicate BodyReads(out: string, pos: nat, r: Record, rest: string) {
    && pos + |Body(r)| <= |out| && out[pos + |Body(r)|..] == rest
    && (r.Found? ==> out[pos..pos + |r.content|] == r.content)
  }

  lemma HeaderAt(out: string, pos: nat, r: Record, rest: string)
    requires pos <= |out| && WellFormed(r) && out[pos..] == Header(r) + ("\n" + rest)
    ensures HeadReads(out, pos, r) && out[pos + |Header(r)| + 1..] == rest
  {
    HeaderIsALine(r);
    LineAt(out, pos, Header(r), rest);
    SplitHeader(r);
    assert out[pos..IndexOf(out, pos)] == Header(r);
  }

  lemma BodyAt(out: string, pos: nat, r: Record, rest: string)
    requires pos <= |out| && out[pos..] == Body(r) + rest
    ensures BodyReads(out, pos, r, rest)
  {
    if r.Found? {
      ContentAt(out, pos, r.content, rest);
    } else {
      assert Body(r) + rest == rest;
    }
  }

  /** At `pos` the record is read back: its words from the line that ends at the first newline,
      its content from the size they state, and then what follows. */
  ghost predicate ReadsAs(out: string, pos: nat, r: Record, rest: string)
    requires pos <= |out|
  {
    HeadReads(out, pos, r) && BodyReads(out, pos + |Header(r)| + 1, r, rest)
  }

  lemma RecordReads(out: string, pos: nat, r: Record, rest: string)
    requires pos <= |out| && WellFormed(r) && out[pos..] == Header(r) + ("\n" + (Body(r) + rest))
    ensures ReadsAs(out, pos, r, rest)
  {
    HeaderAt(out, pos, r, Body(r) + rest);
    BodyAt(out, pos + |Header(r)| + 1, r, rest);
  }

  lemma RecordAt(out: string, pos: nat, records: seq<Record>)
    requires pos <= |out| && records != [] && WellFormed(records[0]) && out[pos..] == Stream(records)
    ensures ReadsAs(out, pos, records[0], Stream(records[1..]))
  {
    StreamHead(records);
    RecordReads(out, pos, records[0], Stream(records[1..]));
  }

  /** Where the record after this one starts. */
  function NextAt(pos: nat, r: Record): nat {
    pos + |Header(r)| + 1 + |Body(r)|
  }

  /** What one turn of the loop sees at `pos`: the record `r`, the next one at `next`. */
  ghost predicate Turn(out: string, pos: nat, r: Record, next: nat)
    requires pos <= |out|
  {
    var end := IndexOf(out, pos);
    && pos <= end < next <= |out|
    && var head := Split(out[pos..end]);
       if r.Found? then
         && |head| == 3 && head[0] == r.sha && head[1] == r.kind
         && Decimal.AllDigits(head[2]) && Decimal.Value(head[2]) == |r.content|
         && end + 1 + |r.content| + 1 == next
         && out[end + 1..end + 1 + |r.content|] == r.content
       else |head| == 2 && end + 1 == next
  }

  lemma FoundHead(out: string, pos: nat, r: Record, size: string, head: seq<string>, end: int)
    requires pos <= |out| && r.Found? && HeadReads(out, pos, r) && size == Decimal.Print(|r.content|)
    requires end == IndexOf(out, pos) && head == Split(out[pos..end])
    ensures head == [r.sha, r.kind, size] && end == pos + |Header(r)|
  {
  }

  lemma FoundBody(out: string, pos: nat, r: Record, rest: string)
    requires r.Found? && BodyReads(out, pos, r, rest)
    ensures pos + |r.content| + 1 <= |out| && |Body(r)| == |r.content| + 1
    ensures out[pos..pos + |r.content|] == r.content
  {
  }

  lemma FoundTurn(out: string, pos: nat, r: Record, rest: string, size: string)
    requires pos <= |out| && r.Found? && ReadsAs(out, pos, r, rest) && size == Decimal.Print(|r.content|)
    requires Decimal.AllDigits(size) && Decimal.Value(size) == |r.content|
    ensures Turn(out, pos, r, NextAt(pos, r))
  {
    var end := IndexOf(out, pos);
    FoundHead(out, pos, r, size, Split(out[pos..end]), end);
    FoundBody(out, end + 1, r, rest);
  }

  lemma MissingTurn(out: string, pos: nat, r: Record, rest: string)
    requires pos <= |out| && r.Missing? && ReadsAs(out, pos, r, rest)
    ensures Turn(out, pos, r, NextAt(pos, r))
  {
  }

  lemma TurnAt(out: string, pos: nat, records: seq<Record>)
    requires pos <= |out| && records != [] && WellFormed(records[0]) && out[pos..] == Stream(records)
    ensures var next := NextAt(pos, records[0]);
            Turn(out, pos, records[0], next) && next <= |out| && out[next..] == Stream(records[1..])
  {
    RecordAt(out, pos, records);
    if records[0].Found? {
      var size := Decimal.Print(|records[0].content|);
      Decimal.PrintValue(|records[0].content|);
      FoundTurn(out, pos, records[0], Stream(records[1..]), size);
    } else {
      MissingTurn(out, pos, records[0], Stream(records[1..]));
    }
  }

  /** One turn of the loop. */
  method ReadRecord(out: string, pos: nat, found: map<string, string>, ghost r: Record, ghost goal: nat)
    returns (next: nat, noted: map<string, string>)
    requires pos <= |out| && Turn(out, pos, r, goal)
    ensures next == goal && noted == Noted(found, r)
  {
    var end := IndexOf(out, pos);
    var head := Split(out[pos..end]);
    next, noted := end + 1, found;
    if |head| == 3 {
      var size := Decimal.Value(head[2]);
      if head[1] == "blob" {
        noted := found[head[0] := out[next..next + size]];
      }
      next := next + size + 1;
    }
  }

  lemma StreamEnds(records: seq<Record>)
    ensures Stream(records) == "" <==> records == []
  {
  }

  lemma BlobsStep(seen: seq<Record>, r: Record)
    ensures Blobs(seen + [r]) == Noted(Blobs(seen), r)
  {
    assert (seen + [r])[..|seen|] == seen;
  }

  ghost predicate AllWellFormed(records: seq<Record>) {
    forall i :: 0 <= i < |records| ==> WellFormed(records[i])
  }

  /** Between turns: of `records` the first `k` were read, the others start at `pos`. */
  ghost predicate Between(out: string, pos: nat, found: map<string, string>, records: seq<Record>, k: nat) {
    pos <= |out| && k <= |records| && out[pos..] == Stream(records[k..]) && found == Blobs(records[..k])
  }

  lemma OneMoreRead(records: seq<Record>, k: nat, rest: seq<Record>)
    requires k < |records| && rest == records[k..]
    ensures rest != [] && rest[0] == records[k] && rest[1..] == records[k + 1..]
    ensures Blobs(records[..k + 1]) == Noted(Blobs(records[..k]), records[k])
  {
    BlobsStep(records[..k], records[k]);
    assert records[..k] + [records[k]] == records[..k + 1];
  }

  lemma TurnKeeps(out: string, pos: nat, found: map<string, string>, records: seq<Record>, k: nat)
    requires Between(out, pos, found, records, k) && k < |records| && AllWellFormed(records)
    ensures var next := NextAt(pos, records[k]);
            Turn(out, pos, records[k], next) && Between(out, next, Noted(found, records[k]), records, k + 1)
  {
    var rest := records[k..];
    OneMoreRead(records, k, rest);
    TurnAt(out, pos, rest);
  }

  lemma BetweenEnds(out: string, pos: nat, found: map<string, string>, records: seq<Record>, k: nat)
    requires Between(out, pos, found, records, k)
    ensures pos == |out| <==> k == |records|
    ensures k == |records| ==> found == Blobs(records)
  {
    StreamEnds(records[k..]);
    if k == |records| {
      assert records[..k] == records;
    }
  }

  /** `_cat`: the position-driven loop recovers exactly the blobs git was asked to print,
      whatever bytes they hold, and ends. */
  method Cat(out: string, ghost records: seq<Record>) returns (found: map<string, string>)
    requires out == Stream(records) && AllWellFormed(records)
    ensures found == Blobs(records)
  {
    found := map[];
    var pos := 0;
    ghost var k := 0;
    assert records[0..] == records;
    while pos < |out|
      invariant Between(out, pos, found, records, k)
      decreases |out| - pos
    {
      BetweenEnds(out, pos, found, records, k);
      TurnKeeps(out, pos, found, records, k);
      pos, found := ReadRecord(out, pos, found, records[k], NextAt(pos, records[k]));
      k := k + 1;
    }
    BetweenEnds(out, pos, found, records, k);
  }

  predicate IsBlob(r: Record, sha: string) {
    r.Found? && r.kind == "blob" && r.sha == sha
  }

  /** A name is found exactly when some record is a blob of that name. */
  lemma {:induction false} BlobNames(records: seq<Record>, sha: string)
    ensures sha in Blobs(records) <==> exists i :: 0 <= i < |records| && IsBlob(records[i], sha)
  {
    if records == [] {
    } else {
      BlobNames(records[..|records| - 1], sha);
      var last := records[|records| - 1];
      if IsBlob(last, sha) {
        assert IsBlob(records[|records| - 1], sha);
      } else if i :| 0 <= i < |records| && IsBlob(records[i], sha) {
        assert records[..|records| - 1][i] == records[i];
      }
    }
  }

  /** A blob no later record repeats is found with exactly its bytes. */
  lemma {:induction false} BlobContent(records: seq<Record>, i: nat, sha: string)
    requires i < |records| && IsBlob(records[i], sha)
    requires forall k :: i < k < |records| ==> !IsBlob(records[k], sha)
    ensures sha in Blobs(records) && Blobs(records)[sha] == records[i].content
  {
    if i >= |records| - 1 {
    } else {
      BlobContent(records[..|records| - 1], i, sha);
    }
  }
}
