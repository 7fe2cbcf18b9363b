/** What a list of header lines says about one header: names in any case, repeated and continued lines joined
    (http/http_request_parser.h, http/http_header_map.h). */
module HeaderValues {
  import opened ByteArrays
  import opened HttpParsing
  import opened HttpPrinting

  // ---- Names --------------------------------------------------------------------------

  /** A name in lower case. */
  predicate IsName(name: string) {
    forall i :: 0 <= i < |name| ==> name[i] as int < 128 && !('A' <= name[i] <= 'Z')
  }

  function Ascii(name: string): (s: Bytes)
    ensures |s| == |name|
  {
    seq(|name|, i requires 0 <= i < |name| => if name[i] as int < 128 then name[i] as int else 0)
  }

  /** The key is the name, with any of its letters in upper case. */
  predicate AnyCase(key: Bytes, name: string) {
    && |key| == |name|
    && forall i :: 0 <= i < |key| ==>
                     key[i] == name[i] as int || (65 <= key[i] <= 90 && key[i] + 32 == name[i] as int)
  }

  lemma AnyCaseIsLower(key: Bytes, name: string)
    requires IsName(name)
    ensures AnyCase(key, name) <==> ToLower(key) == Ascii(name)
  {
    if AnyCase(key, name) {
      forall i | 0 <= i < |key| ensures ToLower(key)[i] == Ascii(name)[i] {
      }
    } else if ToLower(key) == Ascii(name) {
      forall i | 0 <= i < |key|
        ensures key[i] == name[i] as int || (65 <= key[i] <= 90 && key[i] + 32 == name[i] as int)
      {
        assert ToLower(key)[i] == Ascii(name)[i];
      }
    }
  }

  // ---- Values -------------------------------------------------------------------------

  /** The line carries the name, or continues one that does. */
  predicate BelongsTo(lines: seq<HeaderLine>, i: nat, name: string)
    requires i < |lines|
  {
    if lines[i].Named? then AnyCase(lines[i].key, name) else i > 0 && BelongsTo(lines, i - 1, name)
  }

  /** The values of all lines that belong to the name, in order: a continuation behind a blank, a repeated line
      behind a comma and a blank. */
  function HeaderValue(lines: seq<HeaderLine>, name: string): Option<Bytes> {
    if lines == [] then None
    else
      var n := |lines| - 1;
      var before := HeaderValue(lines[..n], name);
      if !BelongsTo(lines, n, name) then before
      else if before.None? then Some(lines[n].value)
      else Some(before.value + (if lines[n].Folded? then [32] else [44, 32]) + lines[n].value)
  }

  lemma {:induction false} BelongsInFront(lines: seq<HeaderLine>, more: seq<HeaderLine>, i: nat, name: string)
    requires i < |lines|
    ensures BelongsTo(lines + more, i, name) == BelongsTo(lines, i, name)
  {
    hide AnyCase;
    if lines[i].Named? || i == 0 {
    } else {
      BelongsInFront(lines, more, i - 1, name);
    }
  }

  lemma {:induction false} BlockSnoc(start: Block, lines: seq<HeaderLine>, line: HeaderLine)
    ensures var block := BlockOf(start, lines);
            var key := if line.Named? then line.key else block.lastKey;
            BlockOf(start, lines + [line]) == Block(WithLine(block.headers, key, line.Folded?, line.value), key)
    decreases |lines|
  {
    hide WithLine;
    if lines == [] {
      assert lines + [line] == [line] && [line][1..] == [];
    } else {
      assert (lines + [line])[0] == lines[0] && (lines + [line])[1..] == lines[1..] + [line];
      var key := if lines[0].Named? then lines[0].key else start.lastKey;
      BlockSnoc(Block(WithLine(start.headers, key, lines[0].Folded?, lines[0].value), key), lines[1..], line);
    }
  }

  /** Named lines come before any that continues one. */
  predicate StartsNamed(lines: seq<HeaderLine>) {
    lines != [] ==> lines[0].Named?
  }

  lemma {:induction false} LastKeyIs(lines: seq<HeaderLine>, name: string)
    requires lines != [] && lines[0].Named? && IsName(name)
    ensures BelongsTo(lines, |lines| - 1, name) <==> AnyCase(BlockOf(NO_HEADERS, lines).lastKey, name)
    decreases |lines|
  {
    hide AnyCase, WithLine;
    var n := |lines| - 1;
    var front, line := lines[..n], lines[n];
    assert lines == front + [line];
    BlockSnoc(NO_HEADERS, front, line);
    if line.Named? {
    } else {
      LastKeyIs(front, name);
      BelongsInFront(front, [line], n - 1, name);
    }
  }

  /** The header map holds exactly what the lines say about each name. */
  ghost predicate SaysOf(h: Headers, lines: seq<HeaderLine>, name: string)
    requires IsName(name)
  {
    if HeaderValue(lines, name).None? then Ascii(name) !in h
    else Ascii(name) in h && h[Ascii(name)] == HeaderValue(lines, name).value
  }

  /** What a list of header lines means: for every name, in any case, the joined values of its lines. */
  lemma {:induction false} LinesMean(lines: seq<HeaderLine>, name: string)
    requires StartsNamed(lines) && IsName(name)
    ensures SaysOf(BlockOf(NO_HEADERS, lines).headers, lines, name)
    decreases |lines|
  {
    if lines == [] {
    } else {
      var n := |lines| - 1;
      var front, line := lines[..n], lines[n];
      assert lines == front + [line];
      LinesMean(front, name);
      BlockSnoc(NO_HEADERS, front, line);
      var block := BlockOf(NO_HEADERS, front);
      var key := if line.Named? then line.key else block.lastKey;
      LastKeyIs(lines, name);
      AnyCaseIsLower(key, name);
      hide AnyCase, BlockOf, Ascii, ToLower, BelongsTo, IsName;
      assert BelongsTo(lines, n, name) <==> ToLower(key) == Ascii(name);
    }
  }

  /** The only line with the name, and it is not continued. */
  ghost predicate OnlyLine(lines: seq<HeaderLine>, i: nat, name: string)
    requires i < |lines|
  {
    && (forall j :: 0 <= j < |lines| && lines[j].Named? ==> (AnyCase(lines[j].key, name) <==> j == i))
    && lines[i].Named? && (i + 1 < |lines| ==> lines[i + 1].Named?)
  }

  lemma {:induction false} OthersDoNotBelong(lines: seq<HeaderLine>, i: nat, k: nat, name: string)
    requires i < |lines| && OnlyLine(lines, i, name) && k < |lines|
    ensures BelongsTo(lines, k, name) <==> k == i
  {
    hide AnyCase;
    if lines[k].Named? || k == 0 {
    } else {
      OthersDoNotBelong(lines, i, k - 1, name);
    }
  }

  lemma {:induction false} OnlyValueUpTo(lines: seq<HeaderLine>, i: nat, n: nat, name: string)
    requires i < |lines| && OnlyLine(lines, i, name) && n <= |lines|
    ensures HeaderValue(lines[..n], name) == if n <= i then None else Some(lines[i].value)
  {
    hide AnyCase;
    if n == 0 {
    } else {
      OnlyValueUpTo(lines, i, n - 1, name);
      OthersDoNotBelong(lines, i, n - 1, name);
      assert lines[..n][..n - 1] == lines[..n - 1];
      assert lines == lines[..n] + lines[n..];
      BelongsInFront(lines[..n], lines[n..], n - 1, name);
    }
  }

  lemma OnlyValue(lines: seq<HeaderLine>, i: nat, name: string)
    requires i < |lines| && OnlyLine(lines, i, name)
    ensures HeaderValue(lines, name) == Some(lines[i].value)
  {
    OnlyValueUpTo(lines, i, |lines|, name);
    assert lines[..|lines|] == lines;
  }
}
