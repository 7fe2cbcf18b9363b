/** Printed requests and header blocks, and what the parser makes of them: the header map's printer
    (http/http_header_map.h) against the parser's header states (http/http_request_parser.h). */
module HttpPrinting {
  import opened ByteArrays
  import opened HttpParsing

  const CRLF: Bytes := [CR, LF]

  /** What printf shows of a text: the bytes before its first NUL. */
  function CString(s: Bytes): (r: Bytes)
    ensures r <= s && 0 !in r && (0 !in s ==> r == s)
  {
    if s == [] || s[0] == 0 then [] else [s[0]] + CString(s[1..])
  }

  // ---- Header lines -----------------------------------------------------------------

  /** A line with its own key, or one that starts with blanks and continues the header before it. */
  datatype HeaderLine = Named(key: Bytes, blanks: Bytes, value: Bytes) | Folded(blanks: Bytes, value: Bytes)

  /** What comes before the blanks of a line. */
  function LineHead(line: HeaderLine): Bytes {
    if line.Named? then line.key + [COLON] else []
  }

  function PrintLine(line: HeaderLine): Bytes {
    LineHead(line) + line.blanks + line.value + CRLF
  }

  function PrintLines(lines: seq<HeaderLine>): Bytes {
    if lines == [] then [] else PrintLine(lines[0]) + PrintLines(lines[1..])
  }

  predicate KeyFits(key: Bytes) {
    key != [] && forall b | b in key :: !IsCtl(b) && !IsLWSP(b) && b != COLON
  }

  predicate Blank(s: Bytes) {
    forall b | b in s :: IsLWSP(b)
  }

  /** Read from the left, every CR has a byte other than LF after it, which it takes along. */
  predicate CrSafe(s: Bytes) {
    if s == [] then true
    else if s[0] != CR then CrSafe(s[1..])
    else |s| >= 2 && s[1] != LF && CrSafe(s[2..])
  }

  predicate ValueFits(value: Bytes) {
    (value != [] ==> !IsLWSP(value[0])) && CrSafe(value)
  }

  lemma {:induction false} NoCrIsSafe(s: Bytes)
    requires CR !in s
    ensures CrSafe(s)
    decreases |s|
  {
    if s == [] {
    } else {
      NoCrIsSafe(s[1..]);
    }
  }

  predicate LineFits(line: HeaderLine) {
    && (if line.Named? then KeyFits(line.key) else line.blanks != [])
    && Blank(line.blanks) && ValueFits(line.value)
  }

  /** The headers and the last key that a list of lines means. */
  datatype Block = Block(headers: Headers, lastKey: Bytes)

  function BlockOf(start: Block, lines: seq<HeaderLine>): Block
    decreases |lines|
  {
    if lines == [] then start
    else
      var key := if lines[0].Named? then lines[0].key else start.lastKey;
      BlockOf(Block(WithLine(start.headers, key, lines[0].Folded?, lines[0].value), key), lines[1..])
  }

  const NO_HEADERS := Block(map[], [])

  /** Between two header lines. */
  predicate AtLineStart(p: State) {
    && p.at == HEADER_KEY && p.buffer == [] && !p.continueHeader
    && (p.headerKey != [] ==> ToLower(p.headerKey) in p.request.headers)
  }

  function Holding(p: State, block: Block): State {
    p.(headerKey := block.lastKey, request := p.request.(headers := block.headers))
  }

  // ---- Reaching a state ---------------------------------------------------------------

  /** The parser takes all the bytes and goes on from another state. */
  predicate Reaches(env: HttpEnv, p: State, s: Bytes, q: State) {
    Scan(env, p, s) == ScanResult(q, Incomplete, |s|)
  }

  lemma Then(env: HttpEnv, p: State, a: Bytes, q: State, b: Bytes, r: State)
    requires Reaches(env, p, a, q) && Reaches(env, q, b, r)
    ensures Reaches(env, p, a + b, r)
  {
    Resumable(env, p, a, b);
  }

  lemma {:induction false} PathReaches(env: HttpEnv, path: seq<State>, s: Bytes)
    requires |path| == |s| + 1
    requires forall i | 0 <= i < |s| :: Step(env, path[i], s[i]) == GoOn(path[i + 1])
    ensures Reaches(env, path[0], s, path[|s|])
    decreases |s|
  {
    hide Step;
    if s == [] {
    } else {
      PathReaches(env, path[1..], s[1..]);
    }
  }

  lemma OneByte(env: HttpEnv, p: State, b: byte, q: State)
    requires Step(env, p, b) == GoOn(q)
    ensures Reaches(env, p, [b], q)
  {
    hide Step;
    PathReaches(env, [p, q], [b]);
  }

  /** Every byte is just appended to the buffer. */
  ghost predicate Pushed(env: HttpEnv, p: State, s: Bytes) {
    forall i | 0 <= i < |s| ::
      Step(env, p.(buffer := p.buffer + s[..i]), s[i]) == GoOn(p.(buffer := p.buffer + s[..i] + [s[i]]))
  }

  lemma PushedReaches(env: HttpEnv, p: State, s: Bytes)
    requires Pushed(env, p, s)
    ensures Reaches(env, p, s, p.(buffer := p.buffer + s))
  {
    hide Step;
    var path := seq(|s| + 1, i requires 0 <= i <= |s| => p.(buffer := p.buffer + s[..i]));
    forall i | 0 <= i < |s| ensures Step(env, path[i], s[i]) == GoOn(path[i + 1]) {
      assert p.buffer + s[..i] + [s[i]] == p.buffer + s[..i + 1];
    }
    PathReaches(env, path, s);
    assert p.buffer + s[..0] == p.buffer && s[..|s|] == s;
  }

  lemma KeyReaches(env: HttpEnv, p: State, key: Bytes)
    requires p.at == HEADER_KEY && KeyFits(key)
    ensures Reaches(env, p, key, p.(buffer := p.buffer + key))
  {
    forall i | 0 <= i < |key|
      ensures Step(env, p.(buffer := p.buffer + key[..i]), key[i])
           == GoOn(p.(buffer := p.buffer + key[..i] + [key[i]]))
    {
      assert key[i] in key;
    }
    PushedReaches(env, p, key);
  }

  lemma BlanksReach(env: HttpEnv, p: State, blanks: Bytes)
    requires p.at == HEADER_VALUE && p.buffer == [] && Blank(blanks)
    ensures Reaches(env, p, blanks, p)
  {
    forall i | 0 <= i < |blanks| ensures Step(env, p, blanks[i]) == GoOn(p) {
      assert blanks[i] in blanks;
    }
    hide Step;
    PathReaches(env, seq(|blanks| + 1, i => p), blanks);
  }

  /** One byte of a value, or a CR and the byte it takes along. */
  lemma ValueStep(env: HttpEnv, p: State, head: Bytes)
    requires p.at == HEADER_VALUE
    requires || (|head| == 1 && head[0] != CR && (p.buffer == [] ==> !IsLWSP(head[0])))
             || (|head| == 2 && head[0] == CR && head[1] != LF)
    ensures Reaches(env, p, head, p.(buffer := p.buffer + head))
  {
    var q := p.(buffer := p.buffer + head);
    if |head| == 1 {
      assert head == [head[0]];
      OneByte(env, p, head[0], q);
    } else {
      var cr := p.(at := NEW_LINE_LF);
      OneByte(env, p, CR, cr);
      OneByte(env, cr, head[1], q);
      assert [CR] + [head[1]] == head;
      Then(env, p, [CR], cr, [head[1]], q);
    }
  }

  lemma SafeRest(value: Bytes, n: nat)
    requires value != [] && CrSafe(value) && n == if value[0] == CR then 2 else 1
    ensures n <= |value| && CrSafe(value[n..]) && (n == 2 ==> value[1] != LF)
  {
  }

  lemma {:induction false} ValueReaches(env: HttpEnv, p: State, value: Bytes)
    requires p.at == HEADER_VALUE && CrSafe(value)
    requires p.buffer == [] && value != [] ==> !IsLWSP(value[0])
    ensures Reaches(env, p, value, p.(buffer := p.buffer + value))
    decreases |value|
  {
    if value == [] {
      assert p.buffer + value == p.buffer;
    } else {
      var n := if value[0] == CR then 2 else 1;
      var head, rest := value[..n], value[n..];
      var q := p.(buffer := p.buffer + head);
      SafeRest(value, n);
      ValueStep(env, p, head);
      hide Reaches, Step, CrSafe;
      ValueReaches(env, q, rest);
      assert value == head + rest;
      ConcatAssoc(p.buffer, head, rest);
      Then(env, p, head, q, rest, p.(buffer := p.buffer + value));
    }
  }

  /** The state in which the value of a line is read. */
  function AtValue(p: State, line: HeaderLine): State {
    p.(at := HEADER_VALUE, headerKey := if line.Named? then line.key else p.headerKey,
       continueHeader := line.Folded?)
  }

  /** From the start of a line to the start of its value. */
  lemma LineHeadReaches(env: HttpEnv, p: State, line: HeaderLine)
    requires AtLineStart(p) && LineFits(line)
    ensures Reaches(env, p, LineHead(line) + line.blanks, AtValue(p, line))
  {
    var q := AtValue(p, line);
    BlanksReach(env, q, line.blanks);
    if line.Named? {
      var key := p.(buffer := line.key);
      KeyReaches(env, p, line.key);
      assert p.buffer + line.key == line.key;
      OneByte(env, key, COLON, q);
      hide Reaches, Step, LineFits, KeyFits, AtLineStart, AtValue;
      Then(env, p, line.key, key, [COLON], q);
      Then(env, p, line.key + [COLON], q, line.blanks, q);
    } else {
      var blank, rest := line.blanks[0], line.blanks[1..];
      assert blank in line.blanks;
      BlanksReach(env, q, rest);
      OneByte(env, p, blank, q);
      hide Reaches, Step;
      Then(env, p, [blank], q, rest, q);
      assert LineHead(line) + line.blanks == [blank] + rest;
    }
  }

  /** The end of a line stores its value. */
  lemma LineEndReaches(env: HttpEnv, p: State, line: HeaderLine)
    requires AtLineStart(p) && LineFits(line) && (line.Folded? ==> p.headerKey != [])
    ensures var q := Holding(p, BlockOf(Block(p.request.headers, p.headerKey), [line]));
            Reaches(env, AtValue(p, line).(buffer := line.value), CRLF, q) && AtLineStart(q)
  {
    var b := AtValue(p, line).(buffer := line.value);
    var c := b.(at := NEW_LINE_LF);
    var h := WithLine(p.request.headers, b.headerKey, line.Folded?, line.value);
    var d := p.(headerKey := b.headerKey, request := p.request.(headers := h));
    assert [line][1..] == [];
    assert d == Holding(p, BlockOf(Block(p.request.headers, p.headerKey), [line]));
    OneByte(env, b, CR, c);
    OneByte(env, c, LF, d);
    assert [CR] + [LF] == CRLF;
    Then(env, b, [CR], c, [LF], d);
  }

  lemma LineReaches(env: HttpEnv, p: State, line: HeaderLine)
    requires AtLineStart(p) && LineFits(line) && (line.Folded? ==> p.headerKey != [])
    ensures var q := Holding(p, BlockOf(Block(p.request.headers, p.headerKey), [line]));
            Reaches(env, p, PrintLine(line), q) && AtLineStart(q)
  {
    var a := AtValue(p, line);
    var b := a.(buffer := line.value);
    var head := LineHead(line) + line.blanks;
    LineHeadReaches(env, p, line);
    assert a.buffer + line.value == line.value;
    ValueReaches(env, a, line.value);
    LineEndReaches(env, p, line);
    hide Step, WithLine, AtValue, LineHead, Reaches, BlockOf;
    Then(env, p, head, a, line.value, b);
    Then(env, p, head + line.value, b, CRLF, Holding(p, BlockOf(Block(p.request.headers, p.headerKey), [line])));
  }

  /** Whatever list of header lines is printed, the parser's headers are what the lines mean: a repeated
      key (in any case) joins its values with a comma, a folded line joins with a blank. */
  lemma {:induction false} LinesReach(env: HttpEnv, p: State, lines: seq<HeaderLine>)
    requires AtLineStart(p) && (forall line | line in lines :: LineFits(line))
    requires lines != [] && lines[0].Folded? ==> p.headerKey != []
    ensures var q := Holding(p, BlockOf(Block(p.request.headers, p.headerKey), lines));
            Reaches(env, p, PrintLines(lines), q) && AtLineStart(q)
    decreases |lines|
  {
    if lines == [] {
    } else {
      var block := Block(p.request.headers, p.headerKey);
      var q := Holding(p, BlockOf(block, [lines[0]]));
      assert [lines[0]][1..] == [];
      assert lines[0] in lines;
      LineReaches(env, p, lines[0]);
      hide Step, WithLine, AtLineStart;
      LinesReach(env, q, lines[1..]);
      var r := Holding(q, BlockOf(Block(q.request.headers, q.headerKey), lines[1..]));
      Then(env, p, PrintLine(lines[0]), q, PrintLines(lines[1..]), r);
      assert r == Holding(p, BlockOf(block, lines));
    }
  }

  // ---- Printing a header map ------------------------------------------------------------

  predicate KeysIn(order: seq<Bytes>, h: Headers) {
    forall key | key in order :: key in h
  }

  /** The keys visited so far by some iteration over the map, each once, with the others left. */
  ghost predicate Visited(h: Headers, left: set<Bytes>, order: seq<Bytes>) {
    && (forall i, j | 0 <= i < j < |order| :: order[i] != order[j])
    && (forall key :: key in order <==> key in h && key !in left)
    && KeysIn(order, h)
  }

  lemma VisitOne(h: Headers, left: set<Bytes>, order: seq<Bytes>, key: Bytes)
    requires Visited(h, left, order) && key in left && key in h
    ensures Visited(h, left - {key}, order + [key]) && KeysIn(order + [key], h)
  {
  }

  ghost predicate IsOrder(h: Headers, order: seq<Bytes>) { Visited(h, {}, order) }

  function LinesOf(h: Headers, order: seq<Bytes>): (lines: seq<HeaderLine>)
    requires KeysIn(order, h)
  {
    seq(|order|, i requires 0 <= i < |order| =>
      assert order[i] in order; Named(CString(order[i]), [SP], CString(h[order[i]])))
  }

  lemma {:induction false} PrintLinesConcat(a: seq<HeaderLine>, b: seq<HeaderLine>)
    ensures PrintLines(a + b) == PrintLines(a) + PrintLines(b)
    decreases |a|
  {
    if a == [] {
      assert a + b == b;
    } else {
      assert (a + b)[0] == a[0] && (a + b)[1..] == a[1..] + b;
      PrintLinesConcat(a[1..], b);
    }
  }

  lemma PrintLinesSnoc(lines: seq<HeaderLine>, line: HeaderLine)
    ensures PrintLines(lines + [line]) == PrintLines(lines) + PrintLine(line)
  {
    PrintLinesConcat(lines, [line]);
    assert [line][0] == line && [line][1..] == [];
    hide PrintLine;
    assert PrintLines([line]) == PrintLine(line) + PrintLines([]) == PrintLine(line);
  }

  lemma LinesOfSnoc(h: Headers, order: seq<Bytes>, key: Bytes)
    requires KeysIn(order, h) && KeysIn(order + [key], h) && key in h
    ensures LinesOf(h, order + [key]) == LinesOf(h, order) + [Named(CString(key), [SP], CString(h[key]))]
  {
    hide CString;
  }

  /** Each key, a colon and a blank, its value, and the line end. */
  function MapText(h: Headers, order: seq<Bytes>): Bytes
    requires KeysIn(order, h)
    decreases |order|
  {
    if order == [] then []
    else
      var n := |order| - 1;
      assert order[n] in order;
      MapText(h, order[..n]) + CString(order[n]) + [58, 32] + CString(h[order[n]]) + [13, 10]
  }

  lemma OneMoreLine(h: Headers, order: seq<Bytes>, key: Bytes, output: Bytes)
    requires KeysIn(order, h) && KeysIn(order + [key], h) && key in h
    ensures output + PrintLines(LinesOf(h, order + [key]))
         == output + PrintLines(LinesOf(h, order)) + (CString(key) + [COLON, SP] + CString(h[key])) + CRLF
  {
    var named := Named(CString(key), [SP], CString(h[key]));
    LinesOfSnoc(h, order, key);
    PrintLinesSnoc(LinesOf(h, order), named);
    var line := named.key + [COLON, SP] + named.value;
    assert PrintLine(named) == line + CRLF by {
      assert named.key + [COLON] + [SP] == named.key + [COLON, SP];
    }
    hide *;
    ConcatAssoc4(output, PrintLines(LinesOf(h, order)), line, CRLF);
  }

  lemma {:induction false} LinesAreText(h: Headers, order: seq<Bytes>)
    requires KeysIn(order, h)
    ensures PrintLines(LinesOf(h, order)) == MapText(h, order)
    decreases |order|
  {
    if order == [] {
    } else {
      var n := |order| - 1;
      var front, key := order[..n], order[n];
      assert key in order && order == front + [key];
      LinesAreText(h, front);
      OneMoreLine(h, front, key, []);
      hide CString, PrintLines, LinesOf;
      assert [] + PrintLines(LinesOf(h, order)) == PrintLines(LinesOf(h, order));
      assert [] + PrintLines(LinesOf(h, front)) == PrintLines(LinesOf(h, front));
      ConcatAssoc(MapText(h, front), CString(key), [58, 32]);
      ConcatAssoc(MapText(h, front), CString(key) + [58, 32], CString(h[key]));
    }
  }

  /** The printer appends one line for every key, in an order of its own. */
  method HeadersToBytes(h: Headers, output: Bytes) returns (bytes: Bytes)
    ensures exists order :: && IsOrder(h, order) && bytes == output + PrintLines(LinesOf(h, order))
                            && bytes == output + MapText(h, order)
  {
    ghost var order: seq<Bytes> := [];
    bytes := output;
    var keys := h.Keys;
    assert Visited(h, keys, order) && PrintLines(LinesOf(h, order)) == [];
    hide CString, PrintLines, LinesOf, MapText, Visited, KeysIn;
    while keys != {}
      invariant keys <= h.Keys && Visited(h, keys, order) && KeysIn(order, h)
      invariant bytes == output + PrintLines(LinesOf(h, order))
      decreases keys
    {
      var key :| key in keys;
      VisitOne(h, keys, order, key);
      OneMoreLine(h, order, key, output);
      bytes := bytes + (CString(key) + [COLON, SP] + CString(h[key]));
      bytes := bytes + CRLF;
      order := order + [key];
      keys := keys - {key};
    }
    LinesAreText(h, order);
  }
}
