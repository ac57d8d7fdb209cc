/** What is found in a text that was not written by the provider: blocks after other text, with any
    line ends and line lengths, and after broken blocks. */
module PemInText {
  import opened Common
  import opened Text
  import opened Pem
  import opened PemTheorems
  import Base64

  // ----- text before a block

  /** No opening marker stands at the start of the text or after a line end. */
  ghost predicate NoOpening(s: string) {
    !HasPrefix(s, BEGIN) && forall k :: 0 <= k ==> !OccursAt(s, "\n" + BEGIN, k)
  }

  /** Text that may stand before a block: whole lines, none of which opens a block. */
  ghost predicate IsPreamble(s: string) {
    NoOpening(s) && (s == "" || s[|s| - 1] == '\n')
  }

  lemma {:induction false} MarkersAreOneLine()
    ensures '\n' !in BEGIN && '\n' !in END && '\n' !in DASHES
  {
  }

  lemma {:induction false} PrefixChars(s: string, p: string, i: nat)
    requires i < |p|
    ensures HasPrefix(s, p) ==> s[i] == p[i]
  {
    assert HasPrefix(s, p) ==> s[..|p|][i] == p[i];
  }

  lemma {:induction false} PreambleEnd(pre: string, s: string, k: nat)
    requires IsPreamble(pre) && k + 1 < |pre|
    ensures !OccursAt(pre + s, "\n" + BEGIN, k)
  {
    var t, p := pre + s, "\n" + BEGIN;
    assert !OccursAt(pre, p, k);
    if k + |p| <= |pre| {
      assert t[k..k + |p|] == pre[k..k + |p|];
    } else {
      var i := |pre| - 1 - k;
      OccurrenceChars(t, p, k, i);
      MarkersAreOneLine();
      assert p[i] == BEGIN[i - 1] != '\n' && t[k + i] == pre[|pre| - 1];
    }
  }

  lemma {:induction false} PreambleStart(pre: string, s: string)
    requires IsPreamble(pre) && pre != ""
    ensures !HasPrefix(pre + s, BEGIN)
  {
    var t, i := pre + s, |pre| - 1;
    if |BEGIN| <= |pre| {
      assert t[..|BEGIN|] == pre[..|BEGIN|];
    } else {
      MarkersAreOneLine();
      PrefixChars(t, BEGIN, i);
      assert t[i] == pre[i] && BEGIN[i] in BEGIN;
    }
  }

  /** The search passes over such text and stops at the opening marker after it. */
  lemma {:induction false} SkipPreamble(pre: string, s: string)
    requires IsPreamble(pre) && HasPrefix(s, BEGIN)
    ensures AfterBegin(pre + s) == AfterBegin(s) == Some(s[|BEGIN|..])
  {
    var t, p := pre + s, "\n" + BEGIN;
    if pre == "" {
      assert t == s;
    } else {
      PreambleStart(pre, s);
      var k := |pre| - 1;
      assert t[k..k + |p|] == "\n" + s[..|BEGIN|];
      forall m | 0 <= m < k ensures !OccursAt(t, p, m) { PreambleEnd(pre, s, m); }
      IndexIs(t, p, k);
      assert t[k + 1 + |BEGIN|..] == s[|BEGIN|..];
    }
  }

  lemma {:induction false} SameSearch(s: string, t: string)
    requires AfterBegin(s) == AfterBegin(t)
    ensures Decode(s) == Decode(t)
  {
  }

  lemma {:induction false} StartsWithMarker(b: Block, rest: string)
    requires Canonical(b)
    ensures HasPrefix(Encode(b) + rest, BEGIN)
  {
    EncodeShape(b, rest);
    PrefixOf(BEGIN, Dashed(b.kind)
      + (HeaderText(b.headers) + (Wrap(Base64.Encode(b.bytes)) + (END + (Dashed(b.kind) + rest)))));
  }

  lemma {:induction false} PrefixOf(p: string, s: string)
    ensures HasPrefix(p + s, p) && (p + s)[|p|..] == s
  {
  }

  /** A written block is found behind any preamble and in front of any text. */
  lemma {:induction false} DecodeInText(pre: string, b: Block, rest: string)
    requires IsPreamble(pre) && Writable(b)
    ensures Decode(pre + (Encode(b) + rest)) == Some((b, rest))
  {
    StartsWithMarker(b, rest);
    SkipPreamble(pre, Encode(b) + rest);
    SameSearch(pre + (Encode(b) + rest), Encode(b) + rest);
    DecodeEncode(b, rest);
  }

  /** The blocks with text before each of them, and a tail. */
  function Laid(gaps: seq<string>, bs: seq<Block>, tail: string): string
    requires |gaps| == |bs|
  {
    if |bs| == 0 then tail else gaps[0] + (Encode(bs[0]) + Laid(gaps[1..], bs[1..], tail))
  }

  ghost predicate AllPreambles(gaps: seq<string>) {
    forall i :: 0 <= i < |gaps| ==> IsPreamble(gaps[i])
  }

  lemma {:induction false} NothingInTail(tail: string)
    requires NoOpening(tail)
    ensures Blocks(tail) == []
  {
    var at := IndexOf(tail, "\n" + BEGIN);
  }

  /** In a text of whole lines between blocks, exactly the blocks are found, in their order. */
  lemma {:induction false} BlocksInText(gaps: seq<string>, bs: seq<Block>, tail: string)
    requires |gaps| == |bs| && AllPreambles(gaps) && AllWritable(bs) && NoOpening(tail)
    ensures Blocks(Laid(gaps, bs, tail)) == bs
  {
    if |bs| == 0 {
      NothingInTail(tail);
    } else {
      var more := Laid(gaps[1..], bs[1..], tail);
      BlocksInText(gaps[1..], bs[1..], tail);
      DecodeInText(gaps[0], bs[0], more);
      FirstOfBlocks(gaps[0] + (Encode(bs[0]) + more), bs[0], more);
      assert bs == [bs[0]] + bs[1..];
    }
  }

  // ----- blocks that others have written

  predicate IsLineEnd(s: string) {
    s == "\n" || s == "\r\n"
  }

  /** Lines of base64 characters and blanks, each with a line end of either kind. */
  predicate IsLooseBody(s: string) {
    && (forall i :: 0 <= i < |s| ==> s[i] in " \t\r\n=" || Base64.Value(s[i]).Some?)
    && (|s| > 0 ==> s[|s| - 1] == '\n')
  }

  /** What is left without blanks and line ends. */
  function Payload(s: string): string {
    if |s| == 0 then ""
    else if s[0] in " \t\r\n" then Payload(s[1..])
    else [s[0]] + Payload(s[1..])
  }

  lemma {:induction false} PayloadIs(s: string)
    ensures Base64.StripLineEnds(RemoveBlanks(s)) == Payload(s)
  {
    if |s| > 0 {
      PayloadIs(s[1..]);
      var rest := RemoveBlanks(s[1..]);
      assert ([s[0]] + rest)[1..] == rest;
    }
  }

  lemma {:induction false} PayloadCut(s: string)
    requires |s| > 0 && s[|s| - 1] == '\n'
    ensures Payload(s[..|s| - 1]) == Payload(s)
  {
    if |s| > 1 {
      PayloadCut(s[1..]);
      assert s[..|s| - 1][1..] == s[1..][..|s| - 2];
    } else {
      assert s[1..] == "" && s[..0] == "";
    }
  }

  /** A block without headers, with any line lengths and line ends. */
  function Loose(kind: string, body: string, eol: string, eol': string): string {
    BEGIN + (kind + DASHES + eol + (body + (END + (kind + DASHES + eol'))))
  }

  /** A line with either line end. */
  lemma {:induction false} LooseFirstLine(line: string, eol: string, rest: string)
    requires '\n' !in line && IsLineEnd(eol) && (|line| > 0 ==> line[|line| - 1] !in " \t\r")
    ensures GetLine(line + eol + rest) == (line, rest)
  {
    if eol == "\n" {
      FirstLine(line, rest);
    } else {
      CrLfLine(line, rest);
    }
  }

  lemma {:induction false} CrLfLine(line: string, rest: string)
    requires '\n' !in line && (|line| > 0 ==> line[|line| - 1] !in " \t\r")
    ensures GetLine(line + "\r\n" + rest) == (line, rest)
  {
    var s, k := line + "\r\n" + rest, |line| + 1;
    assert s[k..k + 1] == "\n" && s[k - 1] == '\r';
    forall m | 0 <= m < k ensures !OccursAt(s, "\n", m) {
      OccurrenceChars(s, "\n", m, 0);
      assert m < |line| ==> s[m] == line[m] && line[m] in line;
    }
    IndexIs(s, "\n", k);
    assert s[..k - 1] == line && s[k + 1..] == rest;
  }

  lemma {:induction false} LooseEnd(body: string, after: string)
    requires IsLooseBody(body)
    ensures FindEnd(body + (END + after), true) == Some((CutAt(body), |body| + |END|))
  {
    var s := body + (END + after);
    if |body| == 0 {
      assert s[..|END|] == END;
    } else {
      assert s[0] == body[0] && s[0] != '-';
      NotClosing(s);
      var k := |body| - 1;
      assert s[k..k + 1 + |END|] == "\n" + END;
      forall m | 0 <= m < k ensures !OccursAt(s, "\n" + END, m) {
        OccurrenceChars(s, "\n" + END, m, 1);
        assert s[m + 1] == body[m + 1];
      }
      IndexIs(s, "\n" + END, k);
    }
  }

  lemma {:induction false} LooseBodyDecodes(body: string, bytes: Bytes)
    requires IsLooseBody(body) && Payload(body) == Base64.Encode(bytes)
    ensures Base64.Decode(RemoveBlanks(body[..CutAt(body)])) == Some(bytes)
  {
    if |body| > 0 { PayloadCut(body); }
    PayloadIs(body[..CutAt(body)]);
    assert |body| == 0 ==> body[..0] == body;
    Base64.TextRoundTrip(bytes);
  }

  lemma {:induction false} LooseClosing(kind: string, eol: string, rest: string)
    requires '\n' !in kind && IsLineEnd(eol)
    ensures var after := kind + DASHES + eol + rest;
      && HasPrefix(after, kind + DASHES)
      && GetLine(after[|kind| + |DASHES|..]).0 == ""
      && GetLine(after).1 == rest
  {
    var line := kind + DASHES;
    var after := line + eol + rest;
    assert after[..|line|] == line && after[|line|..] == "" + eol + rest;
    LooseFirstLine("", eol, rest);
    LooseFirstLine(line, eol, rest);
  }

  /** A body, whatever closes it. */
  lemma {:induction false} ReadsBodyBefore(kind: string, body: string, bytes: Bytes, after: string, rest: string)
    requires IsLooseBody(body) && Payload(body) == Base64.Encode(bytes)
    requires HasPrefix(after, kind + DASHES) && GetLine(after[|kind| + |DASHES|..]).0 == ""
    requires GetLine(after).1 == rest
    ensures ReadBody(body + (END + after), kind, []) == Some((Block(kind, [], bytes), rest))
  {
    var s := body + (END + after);
    LooseEnd(body, after);
    LooseBodyDecodes(body, bytes);
    CutParts(body, END, after);
    ReadBodyParts(s, kind, [], CutAt(body), |body| + |END|, bytes, rest);
  }

  lemma {:induction false} CutParts(body: string, marker: string, after: string)
    ensures (body + (marker + after))[|body| + |marker|..] == after
    ensures (body + (marker + after))[..CutAt(body)] == body[..CutAt(body)]
  {
  }

  lemma {:induction false} ReadsLooseBody(kind: string, body: string, bytes: Bytes, eol: string, rest: string)
    requires '\n' !in kind && IsLineEnd(eol)
    requires IsLooseBody(body) && Payload(body) == Base64.Encode(bytes)
    ensures ReadBody(body + (END + (kind + DASHES + eol + rest)), kind, []) == Some((Block(kind, [], bytes), rest))
  {
    LooseClosing(kind, eol, rest);
    ReadsBodyBefore(kind, body, bytes, kind + DASHES + eol + rest, rest);
  }

  /** A text whose first line has no colon starts with no header. */
  lemma {:induction false} NoColonNoHeader(s: string)
    requires |s| > 0 && ':' !in GetLine(s).0
    ensures ReadHeaders(s, []) == Some(([], s))
  {
    NoColon(GetLine(s).0);
  }

  lemma {:induction false} LineChars(s: string, n: nat)
    requires n < |s| && s[n] == '\n'
    ensures forall c :: c in GetLine(s).0 ==> c in s[..n]
  {
    var at := IndexOf(s, "\n");
    assert s[n..n + 1] == "\n";
    assert OccursAt(s, "\n", n);
    var i := at.value;
    assert i <= n;
    var line := s[..if i > 0 && s[i - 1] == '\r' then i - 1 else i];
    TrimRightChars(line);
    forall c | c in GetLine(s).0 ensures c in s[..n] {
      assert c in line;
    }
  }

  lemma {:induction false} BodyLineIsNoHeader(body: string, closing: string)
    requires IsLooseBody(body) && |body| > 0
    ensures ReadHeaders(body + closing, []) == Some(([], body + closing))
  {
    var s, n := body + closing, |body| - 1;
    LineChars(s, n);
    assert s[..n] == body[..n] && forall i :: 0 <= i < n ==> body[..n][i] != ':';
    NoColonNoHeader(s);
  }

  lemma {:induction false} ClosingLineIsNoHeader(kind: string, eol: string, rest: string)
    requires '\n' !in kind && ':' !in kind && IsLineEnd(eol)
    ensures var s := END + (kind + DASHES + eol + rest); ReadHeaders(s, []) == Some(([], s))
  {
    var line := END + kind + DASHES;
    var s := END + (kind + DASHES + eol + rest);
    assert s == line + eol + rest;
    MarkersAreOneLine();
    LooseFirstLine(line, eol, rest);
    NoColonNoHeader(s);
  }

  lemma {:induction false} LooseBodyIsNoHeader(kind: string, body: string, eol: string, rest: string)
    requires '\n' !in kind && IsLineEnd(eol) && IsLooseBody(body) && (|body| > 0 || ':' !in kind)
    ensures var s := body + (END + (kind + DASHES + eol + rest)); ReadHeaders(s, []) == Some(([], s))
  {
    var closing := END + (kind + DASHES + eol + rest);
    if |body| > 0 {
      BodyLineIsNoHeader(body, closing);
    } else {
      assert body + closing == closing;
      ClosingLineIsNoHeader(kind, eol, rest);
    }
  }

  lemma {:induction false} LooseOpening(kind: string, eol: string, tail: string)
    requires '\n' !in kind && IsLineEnd(eol)
    ensures var s := BEGIN + (kind + DASHES + eol + tail);
      AfterBegin(s) == Some(kind + DASHES + eol + tail) && GetLine(kind + DASHES + eol + tail) == (kind + DASHES, tail)
  {
    PrefixOf(BEGIN, kind + DASHES + eol + tail);
    LooseFirstLine(kind + DASHES, eol, tail);
  }

  /** A block without headers is read whatever its line lengths and line ends are, if its base64 text
      is that of some bytes. */
  lemma {:induction false} DecodeLoose(pre: string, kind: string, body: string, bytes: Bytes, eol: string,
                                       eol': string, rest: string)
    requires IsPreamble(pre) && '\n' !in kind && IsLineEnd(eol) && IsLineEnd(eol')
    requires IsLooseBody(body) && Payload(body) == Base64.Encode(bytes) && (|body| > 0 || ':' !in kind)
    ensures Decode(pre + (Loose(kind, body, eol, eol') + rest)) == Some((Block(kind, [], bytes), rest))
  {
    var tail := body + (END + (kind + DASHES + eol' + rest));
    var s := BEGIN + (kind + DASHES + eol + tail);
    LooseShape(kind, body, eol, eol', rest);
    LooseOpening(kind, eol, tail);
    PrefixOf(BEGIN, kind + DASHES + eol + tail);
    SkipPreamble(pre, s);
    LooseBodyIsNoHeader(kind, body, eol', rest);
    ReadsLooseBody(kind, body, bytes, eol', rest);
    TryKind(kind, tail);
  }

  lemma {:induction false} LooseShape(kind: string, body: string, eol: string, eol': string, rest: string)
    ensures Loose(kind, body, eol, eol') + rest
         == BEGIN + (kind + DASHES + eol + (body + (END + (kind + DASHES + eol' + rest))))
  {
    var open, close := kind + DASHES + eol, kind + DASHES + eol';
    Assoc(BEGIN, open + (body + (END + close)), rest);
    Assoc(open, body + (END + close), rest);
    Assoc(body, END + close, rest);
    Assoc(END, close, rest);
  }

  // ----- what is no block

  /** An opening line without the dashes at its end opens nothing: the search goes on behind it. */
  lemma {:induction false} UnfinishedOpening(line: string, eol: string, rest: string)
    requires '\n' !in line && IsLineEnd(eol) && (|line| > 0 ==> line[|line| - 1] !in " \t\r-")
    ensures Decode(BEGIN + (line + eol + rest)) == Decode(rest)
  {
    PrefixOf(BEGIN, line + eol + rest);
    LooseFirstLine(line, eol, rest);
    DashesEnd(line);
  }

  lemma {:induction false} DashesEnd(line: string)
    requires |line| > 0 ==> line[|line| - 1] != '-'
    ensures !HasSuffix(line, DASHES)
  {
    assert |line| >= 5 ==> line[|line| - 5..][4] == line[|line| - 1];
  }

  /** A block that is closed with another label is no block: the search goes on inside it, and finds
      the next one. */
  lemma {:induction false} MislabelledBlock(kind: string, other: string, body: string, b: Block, rest: string)
    requires '\n' !in kind && '\n' !in other && ':' !in kind && ':' !in other
    requires IsLooseBody(body) && !HasPrefix(other + DASHES, kind + DASHES) && Writable(b)
    ensures Decode(BEGIN + (kind + DASHES + "\n" + (body + (END + (other + DASHES + "\n" + (Encode(b) + rest))))))
         == Some((b, rest))
  {
    var next := Encode(b) + rest;
    var tail := body + (END + (other + DASHES + "\n" + next));
    LooseOpening(kind, "\n", tail);
    LooseBodyIsNoHeader(other, body, "\n", next);
    OtherLabel(kind, other, body, next);
    TryKind(kind, tail);
    BrokenIsPreamble(other, body);
    var pre := body + (END + (other + DASHES + "\n"));
    assert tail == pre + next by {
      Assoc(body, END + (other + DASHES + "\n"), next);
      Assoc(END, other + DASHES + "\n", next);
    }
    DecodeInText(pre, b, rest);
  }

  lemma {:induction false} OtherLabel(kind: string, other: string, body: string, next: string)
    requires IsLooseBody(body) && '\n' !in kind && !HasPrefix(other + DASHES, kind + DASHES)
    ensures ReadBody(body + (END + (other + DASHES + "\n" + next)), kind, []).None?
  {
    var after := other + DASHES + "\n" + next;
    var s := body + (END + after);
    LooseEnd(body, after);
    assert s[|body| + |END|..] == after;
    var line := kind + DASHES;
    var i := |other + DASHES|;
    MarkersAreOneLine();
    if |line| <= i {
      assert after[..|line|] == (other + DASHES)[..|line|];
    } else {
      PrefixChars(after, line, i);
      assert after[i] == '\n' && line[i] in line;
    }
  }

  lemma {:induction false} BrokenIsPreamble(other: string, body: string)
    requires IsLooseBody(body) && '\n' !in other
    ensures IsPreamble(body + (END + (other + DASHES + "\n")))
  {
    var line, n := END + (other + DASHES), |body|;
    var pre := body + (END + (other + DASHES + "\n"));
    assert pre == body + (line + "\n");
    EndIsNoBegin();
    PrefixChars(pre, BEGIN, 0);
    PrefixChars(pre, BEGIN, 5);
    assert if n > 0 then pre[0] == body[0] else pre[5] == END[5];
    forall k | 0 <= k ensures !OccursAt(pre, "\n" + BEGIN, k) {
      NoMarkerAt(body, line, k);
    }
  }

  lemma {:induction false} NoMarkerAt(body: string, line: string, k: nat)
    requires IsLooseBody(body) && '\n' !in line && |line| >= |END| && line[..|END|] == END
    ensures !OccursAt(body + (line + "\n"), "\n" + BEGIN, k)
  {
    var pre, p, n := body + (line + "\n"), "\n" + BEGIN, |body|;
    EndIsNoBegin();
    OccurrenceChars(pre, p, k, 0);
    OccurrenceChars(pre, p, k, 1);
    OccurrenceChars(pre, p, k, 6);
    assert p[1] == '-' && p[6] == 'B';
    if k + 1 < n {
      assert pre[k + 1] == body[k + 1];
    } else if k + 1 == n {
      assert pre[k + 6] == line[5] == line[..|END|][5];
    } else if k - n < |line| {
      assert pre[k] == line[k - n] && line[k - n] in line;
    }
  }

  lemma {:induction false} EndIsNoBegin()
    ensures |BEGIN| > 5 && |END| > 5 && BEGIN[5] == 'B' && END[5] == 'E' && BEGIN[0] == '-'
    ensures '\n' !in END && '\n' !in DASHES
  {
  }

  // ----- trimming

  /** A line is cut behind its last character that is no blank or tab. */
  lemma {:induction false} TrimRightIs(s: string)
    ensures var r := TrimRight(s);
      && r == s[..|r|]
      && (|r| > 0 ==> r[|r| - 1] != ' ' && r[|r| - 1] != '\t')
      && forall i :: |r| <= i < |s| ==> s[i] == ' ' || s[i] == '\t'
  {
    if |s| > 0 && s[|s| - 1] in " \t" {
      TrimRightIs(s[..|s| - 1]);
      var r := TrimRight(s);
      assert s[..|s| - 1][..|r|] == s[..|r|];
      assert forall i :: |r| <= i < |s| - 1 ==> s[i] == s[..|s| - 1][i];
    }
  }

  lemma {:induction false} TrimRightSpaceCut(s: string)
    ensures var r := TrimRightSpace(s);
      |r| <= |s| && r == s[..|r|] && forall i :: |r| <= i < |s| ==> IsSpace(s[i])
  {
    if |s| > 0 && IsSpace(s[|s| - 1]) {
      TrimRightSpaceCut(s[..|s| - 1]);
      var r := TrimRightSpace(s);
      assert s[..|s| - 1][..|r|] == s[..|r|];
      assert forall i :: |r| <= i < |s| - 1 ==> s[i] == s[..|s| - 1][i];
    }
  }

  lemma {:induction false} TrimLeftSpaceCut(s: string)
    ensures var r := TrimLeftSpace(s);
      |r| <= |s| && r == s[|s| - |r|..] && forall i :: 0 <= i < |s| - |r| ==> IsSpace(s[i])
  {
    if |s| > 0 && IsSpace(s[0]) {
      TrimLeftSpaceCut(s[1..]);
      assert forall i :: 1 <= i < |s| ==> s[i] == s[1..][i - 1];
    }
  }

  /** Keys and values are cut out between the white space around them. */
  lemma {:induction false} TrimIs(s: string) returns (i: nat, j: nat)
    ensures i <= j <= |s| && Trim(s) == s[i..j] && Solid(Trim(s))
    ensures forall k :: 0 <= k < i || j <= k < |s| ==> s[k] in " \t\n\r\U{000B}\U{000C}"
  {
    var r := TrimRightSpace(s);
    TrimRightSpaceCut(s);
    TrimLeftSpaceCut(r);
    TrimIsSolid(s);
    i, j := |r| - |TrimLeftSpace(r)|, |r|;
    assert r[i..] == s[i..j];
    assert forall k :: 0 <= k < i ==> s[k] == r[k];
  }

  // ----- the format

  /** A block without headers, written out. */
  lemma {:induction false} WrittenFormat(kind: string, bytes: Bytes)
    ensures Encode(Block(kind, [], bytes))
         == "-----BEGIN " + kind + "-----\n" + Wrap(Base64.Encode(bytes)) + "-----END " + kind + "-----\n"
  {
    var body, line := Wrap(Base64.Encode(bytes)), kind + "-----\n";
    assert Dashed(kind) == line;
    assert "" + (body + (END + line)) == body + (END + line);
    Flat(BEGIN, kind, "-----\n", body, END);
  }

  lemma {:induction false} Flat(a: string, k: string, d: string, body: string, e: string)
    ensures a + ((k + d) + (body + (e + (k + d)))) == a + k + d + body + e + k + d
  {
  }

  /** Lines of 64 characters, and a last one that may be shorter. */
  lemma {:induction false} WrapLines(s: string)
    requires '\n' !in s
    ensures var w := Wrap(s);
      && (s == "" <==> w == "")
      && (forall i :: 0 <= i < |w| ==> (w[i] == '\n' <==> i % 65 == 64 || i == |w| - 1))
      && (forall i :: 0 <= i < |w| && w[i] != '\n' ==> i - i / 65 < |s| && w[i] == s[i - i / 65])
    decreases |s|
  {
    if |s| > 64 {
      var w, rest := Wrap(s), Wrap(s[64..]);
      WrapLines(s[64..]);
      forall i | 0 <= i < |w|
        ensures w[i] == '\n' <==> i % 65 == 64 || i == |w| - 1
        ensures w[i] != '\n' ==> i - i / 65 < |s| && w[i] == s[i - i / 65]
      {
        assert s[64..] != "" && rest != "";
        if i < 64 {
          assert w[i] == s[i] && s[i] in s;
        } else if i > 64 {
          assert w[i] == rest[i - 65] && (i - 65) / 65 == i / 65 - 1 && (i - 65) % 65 == i % 65;
        }
      }
    } else {
      assert forall i :: 0 <= i < |s| ==> Wrap(s)[i] == s[i] && s[i] in s;
    }
  }

  // ----- headers

  lemma {:induction false} ProcTypeLines(hs: Headers)
    requires exists i :: 0 <= i < |hs| && hs[i].0 == "Proc-Type"
    ensures HasPrefix(HeaderLines(hs, true), "Proc-Type")
  {
    if hs[0].0 == "Proc-Type" {
      var e := hs[0];
      assert HeaderLines(hs, true) == e.0 + (": " + e.1 + "\n" + HeaderLines(hs[1..], true));
      PrefixOf(e.0, ": " + e.1 + "\n" + HeaderLines(hs[1..], true));
    } else {
      var i :| 0 <= i < |hs| && hs[i].0 == "Proc-Type";
      assert hs[1..][i - 1] == hs[i];
      ProcTypeLines(hs[1..]);
      assert HeaderLines(hs, true) == HeaderLines(hs[1..], true);
    }
  }

  /** The header "Proc-Type" is written first, wherever its key stands in the order of keys. */
  lemma {:induction false} ProcTypeFirst(hs: Headers)
    requires exists i :: 0 <= i < |hs| && hs[i].0 == "Proc-Type"
    ensures HasPrefix(HeaderText(hs), "Proc-Type")
  {
    ProcTypeLines(hs);
    var one, more := HeaderLines(hs, true), HeaderLines(hs, false) + "\n";
    assert HeaderText(hs) == one + more;
    assert (one + more)[..9] == one[..9];
  }

  /** The value of a header, if it is there. */
  function Lookup(hs: Headers, key: string): Option<string> {
    if |hs| == 0 then None else if hs[0].0 == key then Some(hs[0].1) else Lookup(hs[1..], key)
  }

  /** A header that is read again replaces the one read before, and touches no other. */
  lemma {:induction false} PutHeaderIsUpdate(hs: Headers, key: string, value: string, other: string)
    requires Sorted(hs)
    ensures Lookup(PutHeader(hs, key, value), other) == if other == key then Some(value) else Lookup(hs, other)
  {
    if |hs| > 0 {
      SortedTail(hs);
      if Less(key, hs[0].0) {
        assert ([(key, value)] + hs)[1..] == hs;
        if other == key { LessAsymmetric(key, hs[0].0); }
      } else if key != hs[0].0 {
        PutHeaderIsUpdate(hs[1..], key, value, other);
      }
    }
  }

  /** The order of keys: at the first difference, or by length. */
  lemma {:induction false} LessIff(a: string, b: string)
    ensures Less(a, b) <==>
      exists k :: 0 <= k <= |a| && k < |b| && a[..k] == b[..k] && (k == |a| || a[k] < b[k])
    decreases |a|
  {
    if |a| > 0 && |b| > 0 && a[0] == b[0] {
      LessIff(a[1..], b[1..]);
      if k :| 0 <= k <= |a[1..]| && k < |b[1..]| && a[1..][..k] == b[1..][..k]
              && (k == |a[1..]| || a[1..][k] < b[1..][k]) {
        assert a[..k + 1] == [a[0]] + a[1..][..k] && b[..k + 1] == [b[0]] + b[1..][..k];
      }
      if k :| 0 <= k <= |a| && k < |b| && a[..k] == b[..k] && (k == |a| || a[k] < b[k]) {
        assert k > 0 ==> a[1..][..k - 1] == a[..k][1..] == b[..k][1..] == b[1..][..k - 1];
        assert k > 0 ==> k - 1 < |b[1..]| && (k - 1 == |a[1..]| || a[1..][k - 1] < b[1..][k - 1]);
      }
    } else if |b| > 0 && (|a| == 0 || a[0] < b[0]) {
      assert a[..0] == b[..0];
    } else {
      forall k | 0 < k <= |a| && k < |b| ensures a[..k] == b[..k] ==> a[0] == b[0] { SameStart(a, b, k); }
    }
  }

  lemma {:induction false} SameStart(a: string, b: string, k: nat)
    requires 0 < k <= |a| && k <= |b|
    ensures a[..k] == b[..k] ==> a[0] == b[0]
  {
    assert a[..k] == b[..k] ==> a[..k][0] == b[..k][0];
  }
}
