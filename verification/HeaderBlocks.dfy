/** Exactly which header maps survive printing and parsing (http/http_header_map.h,
    http/http_request_parser.h). */
module HeaderBlocks {
  import opened ByteArrays
  import opened HttpParsing
  import opened HttpPrinting
  import opened HttpRoundTrips
  import opened HttpAcceptance

  // ---- Header states do not look at the environment ---------------------------------------

  lemma {:induction false} BodyStays(env: HttpEnv, p: State, s: Bytes, q: State)
    requires InBody(p.at) && Reaches(env, p, s, q)
    ensures InBody(q.at)
    decreases |s|
  {
    if s == [] {
    } else {
      BodyStays(env, Step(env, p, s[0]).next, s[1..], q);
    }
  }

  lemma {:induction false} AnyEnvironment(env: HttpEnv, other: HttpEnv, p: State, s: Bytes, q: State)
    requires InHeader(p.at) && InHeader(q.at) && Reaches(env, p, s, q)
    ensures Reaches(other, p, s, q)
    decreases |s|
  {
    if s == [] {
    } else {
      var next := Step(env, p, s[0]).next;
      assert Step(other, p, s[0]) == Step(env, p, s[0]);
      assert Reaches(env, next, s[1..], q);
      if InBody(next.at) {
        hide Step;
        BodyStays(env, next, s[1..], q);
        assert false;
      } else {
        assert InHeader(next.at);
        hide Step;
        AnyEnvironment(env, other, next, s[1..], q);
      }
    }
  }

  /** An environment in which the empty line always ends the request. */
  function NoPayload(env: HttpEnv): HttpEnv {
    env.(stoull := _ => Some(0))
  }

  lemma EmptyLineCompletes(env: HttpEnv, p: State)
    requires AtLineStart(p)
    ensures Completes(NoPayload(env), p, CRLF)
  {
    var q := p.(at := NEW_LINE_CRLF_END);
    OneByte(NoPayload(env), p, CR, q);
    assert Step(NoPayload(env), q, LF) == Stepped(q, Complete);
    hide Step, NoPayload;
    Resumable(NoPayload(env), p, [CR], [LF]);
    assert [LF][0] == LF && [CR] + [LF] == CRLF;
  }

  /** What is left after a part that the parser takes leads on from there. */
  lemma RestReaches(env: HttpEnv, p: State, a: Bytes, r: State, s: Bytes, q: State)
    requires Reaches(env, p, a, r) && a <= s && Reaches(env, p, s, q)
    ensures Reaches(env, r, s[|a|..], q)
  {
    Resumable(env, p, a, s[|a|..]);
    assert s == a + s[|a|..];
  }

  // ---- What a block of header lines was ----------------------------------------------------

  /** Inside a block there is no empty line. */
  lemma NoEmptyLineWithin(env: HttpEnv, p: State, a: Bytes, r: State, s: Bytes, q: State)
    requires AtLineStart(r) && AtLineStart(q)
    requires Reaches(env, p, a, r) && Reaches(env, p, s, q)
    requires a + [CR] <= s + CRLF && |a| <= |s|
    ensures a == s
  {
    assert a <= s by {
      assert a == (a + [CR])[..|a|] == (s + CRLF)[..|a|];
    }
    if |a| < |s| {
      assert s[|a|] == (a + [CR])[|a|];
      var body := r.(at := NEW_LINE_CRLF_END);
      OneByte(env, r, CR, body);
      hide Step, Reaches;
      RestReaches(env, p, a, r, s, q);
      var rest := s[|a|..];
      assert [CR] <= rest;
      RestReaches(env, r, [CR], body, rest, q);
      BodyStays(env, body, rest[1..], q);
      assert false;
    }
  }

  /** Bytes that take the parser from one line start to another are header lines. */
  lemma LinesBetween(env: HttpEnv, p: State, s: Bytes, q: State) returns (lines: seq<HeaderLine>)
    requires AtLineStart(p) && AtLineStart(q) && Reaches(env, p, s, q)
    ensures s == PrintLines(lines) && (forall line | line in lines :: LineFits(line))
    ensures lines != [] && lines[0].Folded? ==> p.headerKey != []
    ensures q == Holding(p, BlockOf(Block(p.request.headers, p.headerKey), lines))
  {
    var other := NoPayload(env);
    AnyEnvironment(env, other, p, s, q);
    EmptyLineCompletes(env, q);
    Resumable(other, p, s, CRLF);
    hide Step, NoPayload;
    lines := LinesFound(other, p, s + CRLF);
    LinesReach(other, p, lines);
    var r := Holding(p, BlockOf(Block(p.request.headers, p.headerKey), lines));
    NoEmptyLineWithin(other, p, PrintLines(lines), r, s, q);
  }

  // ---- Values that parsing can leave ---------------------------------------------------------

  lemma {:induction false} SafeConcat(a: Bytes, b: Bytes)
    requires CrSafe(a) && CrSafe(b)
    ensures CrSafe(a + b)
    decreases |a|
  {
    if a == [] {
      assert a + b == b;
    } else {
      var n := if a[0] == CR then 2 else 1;
      assert (a + b)[n..] == a[n..] + b;
      SafeConcat(a[n..], b);
    }
  }

  predicate AllSafe(h: Headers) {
    forall key | key in h :: CrSafe(h[key])
  }

  lemma LineKeepsSafe(h: Headers, key: Bytes, folded: bool, value: Bytes)
    requires AllSafe(h) && CrSafe(value)
    ensures AllSafe(WithLine(h, key, folded, value))
  {
    var k := ToLower(key);
    var joint := if folded then [SP] else [COMMA, SP];
    NoCrIsSafe(joint);
    if k in h {
      SafeConcat(h[k], joint);
      SafeConcat(h[k] + joint, value);
    }
  }

  lemma {:induction false} BlockIsSafe(start: Block, lines: seq<HeaderLine>)
    requires AllSafe(start.headers) && forall line | line in lines :: LineFits(line)
    ensures AllSafe(BlockOf(start, lines).headers)
    decreases |lines|
  {
    if lines == [] {
    } else {
      assert lines[0] in lines;
      var key := if lines[0].Named? then lines[0].key else start.lastKey;
      LineKeepsSafe(start.headers, key, lines[0].Folded?, lines[0].value);
      hide AllSafe, WithLine, LineFits;
      BlockIsSafe(Block(WithLine(start.headers, key, lines[0].Folded?, lines[0].value), key), lines[1..]);
    }
  }

  // ---- Printed header maps -------------------------------------------------------------------

  function Stripped(value: Bytes): Bytes {
    value[|BlankPrefix(value)|..]
  }

  lemma {:induction false} SafeAfterBlanks(blanks: Bytes, value: Bytes)
    requires Blank(blanks) && CrSafe(blanks + value)
    ensures CrSafe(value)
    decreases |blanks|
  {
    if blanks == [] {
      assert blanks + value == value;
    } else {
      assert blanks[0] in blanks && (blanks + value)[1..] == blanks[1..] + value;
      SafeAfterBlanks(blanks[1..], value);
    }
  }

  /** Blanks at the front of a value are lost. */
  function StrippedValues(h: Headers): Headers {
    map key | key in h :: Stripped(h[key])
  }

  function StrippedLines(h: Headers, order: seq<Bytes>): (lines: seq<HeaderLine>)
    requires KeysIn(order, h)
    ensures |lines| == |order|
  {
    seq(|order|, i requires 0 <= i < |order| =>
      assert order[i] in order; Named(order[i], [SP] + BlankPrefix(h[order[i]]), Stripped(h[order[i]])))
  }

  /** The header maps to print: lower-case keys free of controls, blanks and colons, values free of NUL. */
  ghost predicate Printable(h: Headers) {
    forall key | key in h :: KeyFits(key) && ToLower(key) == key && 0 !in h[key]
  }

  lemma StrippedFits(value: Bytes)
    requires CrSafe(value)
    ensures ValueFits(Stripped(value)) && Blank([SP] + BlankPrefix(value))
    ensures 0 !in value ==> 0 !in Stripped(value)
    ensures value == BlankPrefix(value) + Stripped(value)
  {
    assert value == BlankPrefix(value) + Stripped(value);
    SafeAfterBlanks(BlankPrefix(value), Stripped(value));
  }

  lemma Shifted(head: Bytes, blank: Bytes, more: Bytes, value: Bytes)
    ensures head + (blank + more) + value + CRLF == head + blank + (more + value) + CRLF
  {
    assert head + (blank + more) + value == head + blank + (more + value);
  }

  lemma StrippedLine(h: Headers, order: seq<Bytes>, i: nat)
    requires Printable(h) && AllSafe(h) && KeysIn(order, h) && i < |order|
    ensures var line := StrippedLines(h, order)[i];
            && LineFits(line) && line.Named?
            && PrintLine(line) == PrintLine(LinesOf(h, order)[i])
            && LinesOf(StrippedValues(h), order)[i] == Named(line.key, [SP], line.value)
  {
    assert order[i] in order;
    var key, value := order[i], h[order[i]];
    StrippedFits(value);
    hide CrSafe, ValueFits, ToLower, KeyFits, Blank, Stripped, BlankPrefix;
    Shifted(key + [COLON], [SP], BlankPrefix(value), Stripped(value));
  }

  lemma {:induction false} SamePrint(a: seq<HeaderLine>, b: seq<HeaderLine>)
    requires |a| == |b| && forall i | 0 <= i < |a| :: PrintLine(a[i]) == PrintLine(b[i])
    ensures PrintLines(a) == PrintLines(b)
    decreases |a|
  {
    hide PrintLine;
    if a == [] {
    } else {
      SamePrint(a[1..], b[1..]);
    }
  }

  lemma {:induction false} BlanksDoNotMatter(start: Block, a: seq<HeaderLine>, b: seq<HeaderLine>)
    requires |a| == |b|
    requires forall i | 0 <= i < |a| :: a[i].Named? && b[i] == Named(a[i].key, [SP], a[i].value)
    ensures BlockOf(start, a) == BlockOf(start, b)
    decreases |a|
  {
    hide WithLine;
    if a == [] {
    } else {
      BlanksDoNotMatter(Block(WithLine(start.headers, a[0].key, false, a[0].value), a[0].key), a[1..], b[1..]);
    }
  }

  lemma StrippedMapFits(h: Headers)
    requires Printable(h) && AllSafe(h)
    ensures HeadersFit(StrippedValues(h))
  {
    var stripped := StrippedValues(h);
    forall key | key in stripped
      ensures KeyFits(key) && ToLower(key) == key && ValueFits(stripped[key]) && 0 !in stripped[key]
    {
      StrippedFits(h[key]);
    }
  }

  /** A printed map whose values are safe is read back with the blanks at the front of its values gone. */
  lemma SafeMapIsStripped(env: HttpEnv, p: State, h: Headers, order: seq<Bytes>)
    requires Printable(h) && AllSafe(h) && IsOrder(h, order)
    requires AtLineStart(p) && p.request.headers == map[]
    ensures exists q :: AtLineStart(q) && Reaches(env, p, PrintLines(LinesOf(h, order)), q)
                        && q.request.headers == StrippedValues(h)
  {
    var lines, stripped := StrippedLines(h, order), StrippedValues(h);
    StrippedMapFits(h);
    hide AllSafe, Printable;
    forall i | 0 <= i < |lines|
      ensures LineFits(lines[i]) && lines[i].Named? && PrintLine(lines[i]) == PrintLine(LinesOf(h, order)[i])
      ensures LinesOf(stripped, order)[i] == Named(lines[i].key, [SP], lines[i].value)
    {
      StrippedLine(h, order, i);
    }
    hide LineFits, PrintLine, AtLineStart, Reaches, StrippedLines, LinesOf, PrintLines, HeadersFit;
    SamePrint(lines, LinesOf(h, order));
    BlanksDoNotMatter(Block(map[], p.headerKey), lines, LinesOf(stripped, order));
    MapLines(stripped, order, p.headerKey);
    LinesReach(env, p, lines);
  }

  /** A printed header map is read back, in whatever order it was printed. */
  ghost predicate ReadBack(env: HttpEnv, p: State, h: Headers, order: seq<Bytes>)
    requires KeysIn(order, h)
  {
    exists q :: AtLineStart(q) && Reaches(env, p, PrintLines(LinesOf(h, order)), q) && q.request.headers == h
  }

  lemma OnlyFittingValues(env: HttpEnv, p: State, h: Headers, order: seq<Bytes>)
    requires Printable(h) && IsOrder(h, order)
    requires AtLineStart(p) && p.request.headers == map[] && ReadBack(env, p, h, order)
    ensures forall key | key in h :: ValueFits(h[key])
  {
    var s := PrintLines(LinesOf(h, order));
    var q :| AtLineStart(q) && Reaches(env, p, s, q) && q.request.headers == h;
    var lines := LinesBetween(env, p, s, q);
    BlockIsSafe(Block(map[], p.headerKey), lines);
    SafeMapIsStripped(env, p, h, order);
    hide AllSafe, Printable, PrintLines, LinesOf;
    assert h == StrippedValues(h);
    forall key | key in h ensures ValueFits(h[key]) {
      assert h[key] == Stripped(h[key]);
      assert BlankPrefix(h[key]) == [];
    }
  }

  // ---- Keys and NULs ------------------------------------------------------------------------------

  lemma {:induction false} PrintedHasNoNul(lines: seq<HeaderLine>)
    requires forall line | line in lines :: 0 !in LineHead(line) && 0 !in line.blanks && 0 !in line.value
    ensures 0 !in PrintLines(lines)
    decreases |lines|
  {
    if lines == [] {
    } else {
      assert lines[0] in lines && 0 !in PrintLine(lines[0]);
      hide PrintLine, LineHead;
      PrintedHasNoNul(lines[1..]);
    }
  }

  lemma MapPrintsNoNul(h: Headers, order: seq<Bytes>)
    requires KeysIn(order, h)
    ensures 0 !in PrintLines(LinesOf(h, order))
  {
    var lines := LinesOf(h, order);
    forall line | line in lines ensures 0 !in LineHead(line) && 0 !in line.blanks && 0 !in line.value {
      var i :| 0 <= i < |lines| && lines[i] == line;
      assert order[i] in order;
    }
    PrintedHasNoNul(lines);
  }

  lemma {:induction false} ValuesHaveNoNul(lines: seq<HeaderLine>)
    requires 0 !in PrintLines(lines)
    ensures forall line | line in lines :: 0 !in line.value
    decreases |lines|
  {
    if lines == [] {
    } else {
      var line := lines[0];
      forall b | b in line.value ensures b in PrintLine(line) {
        assert b in LineHead(line) + line.blanks + line.value;
      }
      assert forall b | b in PrintLine(line) :: b in PrintLines(lines);
      hide PrintLine;
      assert forall b | b in PrintLines(lines[1..]) :: b in PrintLines(lines);
      ValuesHaveNoNul(lines[1..]);
      assert lines == [line] + lines[1..];
    }
  }

  lemma LowerKeyFits(key: Bytes)
    requires KeyFits(key)
    ensures KeyFits(ToLower(key)) && ToLower(ToLower(key)) == ToLower(key)
  {
    var lower := ToLower(key);
    forall b | b in lower ensures !IsCtl(b) && !IsLWSP(b) && b != COLON {
      var i :| 0 <= i < |lower| && lower[i] == b;
      assert key[i] in key;
    }
    LowerTwice(key);
  }

  lemma LineKeepsPrintable(h: Headers, key: Bytes, folded: bool, value: Bytes)
    requires Printable(h) && KeyFits(key) && 0 !in value
    ensures Printable(WithLine(h, key, folded, value))
  {
    LowerKeyFits(key);
    hide KeyFits, ToLower;
  }

  /** Whatever header lines are parsed, the map they leave has fitting lower-case keys and no NUL. */
  lemma {:induction false} BlockIsPrintable(start: Block, lines: seq<HeaderLine>)
    requires Printable(start.headers) && (start.lastKey != [] ==> KeyFits(start.lastKey))
    requires lines != [] && lines[0].Folded? ==> start.lastKey != []
    requires forall line | line in lines :: LineFits(line) && 0 !in line.value
    ensures Printable(BlockOf(start, lines).headers)
    decreases |lines|
  {
    if lines == [] {
    } else {
      var line := lines[0];
      assert line in lines;
      var key := if line.Named? then line.key else start.lastKey;
      assert KeyFits(key) && key != [];
      LineKeepsPrintable(start.headers, key, line.Folded?, line.value);
      hide Printable, WithLine, LineFits, KeyFits;
      BlockIsPrintable(Block(WithLine(start.headers, key, line.Folded?, line.value), key), lines[1..]);
    }
  }

  lemma OnlyPrintable(env: HttpEnv, p: State, h: Headers, order: seq<Bytes>)
    requires IsOrder(h, order) && AtLineStart(p) && p.request.headers == map[] && ReadBack(env, p, h, order)
    ensures Printable(h)
  {
    var s := PrintLines(LinesOf(h, order));
    var q :| AtLineStart(q) && Reaches(env, p, s, q) && q.request.headers == h;
    var lines := LinesBetween(env, p, s, q);
    MapPrintsNoNul(h, order);
    hide AtLineStart, Reaches, PrintLines, LinesOf;
    ValuesHaveNoNul(lines);
    assert p.headerKey == [];
    BlockIsPrintable(Block(map[], []), lines);
  }

  /** Exactly which header maps are read back from what is printed of them: those whose keys are lower-case and
      free of controls, blanks and colons, and whose values hold no NUL, do not start with a blank and have no
      CR that can end their line. */
  lemma HeaderRoundTripIff(env: HttpEnv, p: State, h: Headers, order: seq<Bytes>)
    requires IsOrder(h, order) && AtLineStart(p) && p.request.headers == map[]
    ensures ReadBack(env, p, h, order) <==> HeadersFit(h)
  {
    if HeadersFit(h) {
      HeaderRoundTrip(env, p, h, order);
    }
    if ReadBack(env, p, h, order) {
      hide ReadBack, AtLineStart, IsOrder;
      OnlyPrintable(env, p, h, order);
      OnlyFittingValues(env, p, h, order);
    }
  }

  /** A value with a line break is printed but not read back. */
  lemma LineBreakIsLost(env: HttpEnv, p: State)
    requires AtLineStart(p) && p.request.headers == map[]
    ensures var h: Headers := map[[97] := [CR, LF]]; KeysIn([[97]], h) && !ReadBack(env, p, h, [[97]])
  {
    var h: Headers := map[[97] := [CR, LF]];
    HeaderRoundTripIff(env, p, h, [[97]]);
    assert !ValueFits(h[[97]]);
  }
}
