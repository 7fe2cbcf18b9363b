/** Which header decides: how the server answers the text of a request, and how long its payload is, in terms of its
    header lines (http/http_request.h, http/http.h, http/http_request_parser.h). */
module Upgrades {
  import opened ByteArrays
  import opened HeaderValues
  import opened HttpFront
  import H = HttpParsing
  import P = HttpPrinting
  import R = HttpRoundTrips
  import A = HttpAcceptance

  /** What a text says about a header is what the parser's map holds. */
  lemma TextSays(env: H.HttpEnv, text: Bytes, req: H.Request, lines: seq<P.HeaderLine>, name: string)
    requires A.IsText(env, text, req, lines) && IsName(name)
    ensures SaysOf(req.headers, lines, name)
  {
    hide HeaderValue, P.BlockOf, P.LineFits, R.RequestLineFits, R.PayloadFits, R.PrintRequest;
    LinesMean(lines, name);
  }

  // ---- The payload ----------------------------------------------------------------------

  lemma ContentLengthName()
    ensures IsName("content-length") && Ascii("content-length") == H.ToLower(H.CONTENT_LENGTH)
  {
    assert |Ascii("content-length")| == 14;
  }

  /** The payload of an accepted request is as long as the line "content-length", in any case, says; without one it
      is as long as "0" says. */
  lemma ContentLengthDecides(env: H.HttpEnv, text: Bytes, req: H.Request, lines: seq<P.HeaderLine>)
    requires A.IsText(env, text, req, lines)
    ensures IsName("content-length")
    ensures var said := HeaderValue(lines, "content-length");
            env.stoull(if said.Some? then said.value else [48]) == Some(|req.payload|)
  {
    ContentLengthName();
    TextSays(env, text, req, lines, "content-length");
    hide HeaderValue, P.BlockOf, P.LineFits, R.RequestLineFits, R.PrintRequest, H.ToLower, Ascii;
  }

  // ---- The answer -----------------------------------------------------------------------

  lemma ConnectionName()
    ensures IsName("connection") && Ascii("connection") == H.ToLower(CONNECTION)
  {
    assert |Ascii("connection")| == 10;
  }

  lemma UpgradeNames()
    ensures IsName("upgrade") && Ascii("upgrade") == H.ToLower(UPGRADE_CAPITAL) == UPGRADE
    ensures Ascii("Upgrade") == UPGRADE_CAPITAL
  {
    assert |Ascii("upgrade")| == 7 && |Ascii("Upgrade")| == 7;
  }

  /** The answer to a request with these header lines. */
  function Answer(env: FrontEnv, req: H.Request, lines: seq<P.HeaderLine>): Reply {
    var connection, upgrade := HeaderValue(lines, "connection"), HeaderValue(lines, "upgrade");
    if connection != Some(Ascii("Upgrade")) && connection != Some(Ascii("upgrade")) then BadRequest
    else if env.supported(if upgrade.Some? then upgrade.value else []) then Handshake(req)
    else UpgradeNotSupported
  }

  lemma RequestIsAnswered(env: FrontEnv, text: Bytes, req: H.Request, lines: seq<P.HeaderLine>, p: H.State)
    requires A.IsText(env.http, text, req, lines) && p.request == req
    ensures OnRequest(env, CONNECTED, p).replies == [Answer(env, req, lines)]
    ensures OnRequest(env, CONNECTED, p).closing <==> !(Answer(env, req, lines).Handshake? && env.handshakeOk(req))
  {
    ConnectionName();
    UpgradeNames();
    TextSays(env.http, text, req, lines, "connection");
    TextSays(env.http, text, req, lines, "upgrade");
    hide HeaderValue, A.IsText, H.ToLower, Ascii;
    assert [] + [Answer(env, req, lines)] == [Answer(env, req, lines)];
  }

  lemma {:induction false} FoldAllKeeps(env: FrontEnv, f: Front, chunks: seq<Bytes>)
    ensures var g := FoldAll(env, f, chunks);
            f.replies <= g.replies && (f.closing ==> g.closing)
    decreases |chunks|
  {
    hide Fold;
    if chunks == [] || f.closing {
    } else {
      FoldKeepsClosing(env, f, chunks[0]);
      FoldAllKeeps(env, Fold(env, f, chunks[0]), chunks[1..]);
    }
  }

  /** The first response to a stream that starts with the text of a request, however it is cut, goes by the text's
      "connection" and "upgrade" lines, in any case; the connection stays open only after a handshake that is
      accepted. */
  lemma TextIsAnswered(
      env: FrontEnv, text: Bytes, req: H.Request, lines: seq<P.HeaderLine>, rest: Bytes, chunks: seq<Bytes>)
    requires A.IsText(env.http, text, req, lines) && Flatten(chunks) == text + rest
    ensures var g := FoldAll(env, CONNECTED, chunks);
            && [Answer(env, req, lines)] <= g.replies
            && (!(Answer(env, req, lines).Handshake? && env.handshakeOk(req)) ==> g.closing)
  {
    assert text[..|text|] == text;
    A.TextAccepted(env.http, text, |text|, req, lines);
    var p := H.Scan(env.http, H.BEGIN, text).state;
    hide A.IsText, Fold, FoldAll, OnRequest, H.Scan, Answer, Flatten;
    RequestIsAnswered(env, text, req, lines, p);
    var before, chunk, later, tail := LastByteRead(text, rest, chunks);
    RequestInReads(env, text, tail, before, chunk, later);
    var f := OnRequest(env, CONNECTED, p);
    FoldKeepsClosing(env, f, tail);
    FoldAllKeeps(env, Fold(env, f, tail), later);
  }

  /** With one line for each of the two names, neither continued: the request is an upgrade if and only if the
      connection line says "Upgrade" or "upgrade", and then the upgrade line names the protocol. */
  lemma UpgradeLinesDecide(
      env: FrontEnv, text: Bytes, req: H.Request, lines: seq<P.HeaderLine>, i: nat, j: nat, rest: Bytes,
      chunks: seq<Bytes>)
    requires A.IsText(env.http, text, req, lines) && Flatten(chunks) == text + rest
    requires i < |lines| && OnlyLine(lines, i, "connection") && j < |lines| && OnlyLine(lines, j, "upgrade")
    ensures [if lines[i].value != Ascii("Upgrade") && lines[i].value != Ascii("upgrade") then BadRequest
             else if env.supported(lines[j].value) then Handshake(req)
             else UpgradeNotSupported]
         <= FoldAll(env, CONNECTED, chunks).replies
  {
    hide A.IsText, FoldAll, Flatten, OnlyLine;
    TextIsAnswered(env, text, req, lines, rest, chunks);
    OnlyValue(lines, i, "connection");
    OnlyValue(lines, j, "upgrade");
    hide HeaderValue, Ascii;
  }

  // ---- An example, byte by byte ---------------------------------------------------------------

  const LINE_END: Bytes := [13, 10]

  function ExampleText(): Bytes {
    Ascii("GET / HTTP/1.1") + LINE_END + Ascii("Connection: Upgrade") + LINE_END + Ascii("UPGRADE: echo") + LINE_END
    + LINE_END
  }

  const EXAMPLE_LINES: seq<P.HeaderLine> :=
    [P.Named(Ascii("Connection"), [32], Ascii("Upgrade")), P.Named(Ascii("UPGRADE"), [32], Ascii("echo"))]

  const EXAMPLE := H.Request(Ascii("GET"), Ascii("/"), 1, 1, P.BlockOf(P.NO_HEADERS, EXAMPLE_LINES).headers, [])

  lemma ExampleLineIs(key: string, value: string, text: string)
    requires (key == "Connection" && value == "Upgrade" && text == "Connection: Upgrade")
          || (key == "UPGRADE" && value == "echo" && text == "UPGRADE: echo")
    ensures P.PrintLine(P.Named(Ascii(key), [32], Ascii(value))) == Ascii(text) + LINE_END
  {
  }

  lemma ExampleFirstLine()
    ensures R.PrintRequestLine(EXAMPLE) == Ascii("GET / HTTP/1.1") + LINE_END
  {
    hide P.BlockOf;
  }

  lemma ExamplePrints()
    ensures R.PrintRequest(EXAMPLE, EXAMPLE_LINES) == ExampleText()
  {
    var c, u := EXAMPLE_LINES[0], EXAMPLE_LINES[1];
    ExampleFirstLine();
    ExampleLineIs("Connection", "Upgrade", "Connection: Upgrade");
    ExampleLineIs("UPGRADE", "echo", "UPGRADE: echo");
    assert EXAMPLE_LINES[1..] == [u] && [u][1..] == [];
    assert EXAMPLE.payload == [];
    hide P.PrintLine, R.PrintRequestLine, Ascii, P.BlockOf;
    assert P.PrintLines([u]) == P.PrintLine(u) + [] == P.PrintLine(u);
    assert P.PrintLines(EXAMPLE_LINES) == P.PrintLine(c) + P.PrintLine(u);
  }

  lemma KeyBytesFit(key: Bytes)
    requires key != [] && forall i :: 0 <= i < |key| ==> 65 <= key[i] <= 90 || 97 <= key[i] <= 122
    ensures P.KeyFits(key) && P.ValueFits(key)
  {
    P.NoCrIsSafe(key);
  }

  predicate IsWord(word: string) {
    word != "" && forall i :: 0 <= i < |word| ==> 'A' <= word[i] <= 'Z' || 'a' <= word[i] <= 'z'
  }

  lemma WordFits(word: string)
    requires IsWord(word)
    ensures P.KeyFits(Ascii(word)) && P.ValueFits(Ascii(word))
  {
    KeyBytesFit(Ascii(word));
    hide P.KeyFits, P.ValueFits;
  }

  lemma ExampleWordsFit()
    ensures P.KeyFits(Ascii("Connection")) && P.ValueFits(Ascii("Upgrade"))
    ensures P.KeyFits(Ascii("UPGRADE")) && P.ValueFits(Ascii("echo"))
  {
    assert IsWord("Connection") && IsWord("Upgrade") && IsWord("UPGRADE") && IsWord("echo");
    hide P.KeyFits, P.ValueFits, IsWord;
    WordFits("Connection");
    WordFits("Upgrade");
    WordFits("UPGRADE");
    WordFits("echo");
  }

  lemma ExampleLinesFit()
    ensures forall line | line in EXAMPLE_LINES :: P.LineFits(line)
  {
    ExampleWordsFit();
    hide P.KeyFits, P.ValueFits, Ascii, P.CrSafe;
    assert P.LineFits(EXAMPLE_LINES[0]) && P.LineFits(EXAMPLE_LINES[1]) by {
      assert forall b | b in [32] :: H.IsLWSP(b);
    }
  }

  lemma ExampleIsText(env: H.HttpEnv)
    requires env.knownMethod(Ascii("GET")) && env.stoull([48]) == Some(0)
    ensures A.IsText(env, ExampleText(), EXAMPLE, EXAMPLE_LINES)
  {
    ExamplePrints();
    ExampleLinesFit();
    ContentLengthName();
    LinesMean(EXAMPLE_LINES, "content-length");
    assert HeaderValue(EXAMPLE_LINES, "content-length") == None by {
      assert EXAMPLE_LINES[..2][..1] == [EXAMPLE_LINES[0]] && [EXAMPLE_LINES[0]][..0] == [];
    }
    assert forall b | b in Ascii("GET") :: H.IsUpper(b);
    assert forall b | b in Ascii("/") :: H.IsUrlByte(b);
    hide P.BlockOf, P.LineFits, R.PrintRequest, ExampleText, HeaderValue, H.ToLower;
  }

  lemma ExampleNames()
    ensures OnlyLine(EXAMPLE_LINES, 0, "connection") && OnlyLine(EXAMPLE_LINES, 1, "upgrade")
  {
    assert AnyCase(Ascii("Connection"), "connection") && AnyCase(Ascii("UPGRADE"), "upgrade");
    assert |Ascii("Connection")| == 10 && |Ascii("UPGRADE")| == 7;
    hide Ascii;
  }

  /** An example: "Connection: Upgrade" and "UPGRADE: echo" in a GET are answered by whether there is a protocol
      "echo". */
  lemma ExampleIsAnswered(env: FrontEnv)
    requires env.http.knownMethod(Ascii("GET")) && env.http.stoull([48]) == Some(0)
    ensures [if env.supported(Ascii("echo")) then Handshake(EXAMPLE) else UpgradeNotSupported]
         <= FoldAll(env, CONNECTED, [ExampleText()]).replies
  {
    ExampleIsText(env.http);
    ExampleNames();
    hide FoldAll, ExampleText, A.IsText, OnlyLine, Ascii;
    assert Flatten([ExampleText()]) == ExampleText() + [] by {
      assert [ExampleText()][1..] == [];
    }
    UpgradeLinesDecide(env, ExampleText(), EXAMPLE, EXAMPLE_LINES, 0, 1, [], [ExampleText()]);
  }
}
