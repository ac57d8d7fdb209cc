/** Reading PEM text back after writing it. */
module PemTheorems {
  import opened Common
  import opened Text
  import opened Pem
  import Base64

  // ----- which blocks can be written and read back

  predicate IsSpace(c: char) {
    c in " \t\n\r\U{000B}\U{000C}"
  }

  /** Text without white space at either end. */
  predicate Solid(s: string) {
    |s| > 0 ==> !IsSpace(s[0]) && !IsSpace(s[|s| - 1])
  }

  predicate GoodEntry(e: (string, string)) {
    && Solid(e.0) && ':' !in e.0 && '\n' !in e.0
    && Solid(e.1) && '\n' !in e.1
  }

  ghost predicate Sorted(hs: Headers) {
    forall i, j :: 0 <= i < j < |hs| ==> Less(hs[i].0, hs[j].0)
  }

  ghost predicate GoodHeaders(hs: Headers) {
    Sorted(hs) && forall i :: 0 <= i < |hs| ==> GoodEntry(hs[i])
  }

  /** What every block read from a text looks like: a label on one line, and trimmed header entries
      on one line each, sorted by key, without a colon in a key. */
  ghost predicate Canonical(b: Block) {
    '\n' !in b.kind && GoodHeaders(b.headers)
  }

  /** A block without headers or content whose label has a colon: its closing line is taken for a
      header when it is read. */
  predicate Degenerate(b: Block) {
    |b.headers| == 0 && |b.bytes| == 0 && ':' in b.kind
  }

  ghost predicate Writable(b: Block) {
    Canonical(b) && !Degenerate(b)
  }

  ghost predicate AllWritable(bs: seq<Block>) {
    forall i :: 0 <= i < |bs| ==> Writable(bs[i])
  }

  // ----- the order of keys

  lemma {:induction false} LessAsymmetric(a: string, b: string)
    requires Less(a, b)
    ensures !Less(b, a) && a != b
  {
    if |a| > 0 && a[0] == b[0] { LessAsymmetric(a[1..], b[1..]); }
  }

  lemma {:induction false} LessTotal(a: string, b: string)
    requires !Less(a, b) && a != b
    ensures Less(b, a)
  {
    if |a| > 0 && |b| > 0 && a[0] == b[0] {
      assert a == [a[0]] + a[1..] && b == [b[0]] + b[1..];
      LessTotal(a[1..], b[1..]);
    }
  }

  lemma {:induction false} LessTransitive(a: string, b: string, c: string)
    requires Less(a, b) && Less(b, c)
    ensures Less(a, c)
  {
    if |a| > 0 && a[0] == b[0] && b[0] == c[0] { LessTransitive(a[1..], b[1..], c[1..]); }
  }

  // ----- headers that were read are canonical

  lemma {:induction false} PutHeaderEntries(hs: Headers, key: string, value: string)
    ensures forall e :: e in PutHeader(hs, key, value) ==> e == (key, value) || e in hs
    ensures |PutHeader(hs, key, value)| > 0
  {
    if |hs| > 0 {
      assert hs == [hs[0]] + hs[1..];
      PutHeaderEntries(hs[1..], key, value);
    }
  }

  /** An entry in front of entries that all have larger keys. */
  lemma {:induction false} SortedCons(e: (string, string), hs: Headers)
    requires Sorted(hs) && forall f :: f in hs ==> Less(e.0, f.0)
    ensures Sorted([e] + hs)
  {
    var r := [e] + hs;
    forall i, j | 0 <= i < j < |r| ensures Less(r[i].0, r[j].0) {
      assert r[j] == hs[j - 1] && r[j] in hs;
      assert i > 0 ==> r[i] == hs[i - 1];
    }
  }

  lemma {:induction false} SortedTail(hs: Headers)
    requires Sorted(hs) && |hs| > 0
    ensures Sorted(hs[1..]) && forall f :: f in hs[1..] ==> Less(hs[0].0, f.0)
  {
    forall f | f in hs[1..] ensures Less(hs[0].0, f.0) {
      var i :| 0 <= i < |hs[1..]| && hs[1..][i] == f;
      assert hs[i + 1] == f;
    }
  }

  lemma {:induction false} PutHeaderSorted(hs: Headers, key: string, value: string)
    requires Sorted(hs)
    ensures Sorted(PutHeader(hs, key, value))
  {
    if |hs| > 0 {
      SortedTail(hs);
      var e := (key, value);
      if Less(key, hs[0].0) {
        forall f | f in hs ensures Less(key, f.0) {
          assert hs == [hs[0]] + hs[1..];
          if f != hs[0] { LessTransitive(key, hs[0].0, f.0); }
        }
        SortedCons(e, hs);
      } else if key == hs[0].0 {
        SortedCons(e, hs[1..]);
      } else {
        LessTotal(key, hs[0].0);
        PutHeaderSorted(hs[1..], key, value);
        PutHeaderEntries(hs[1..], key, value);
        SortedCons(hs[0], PutHeader(hs[1..], key, value));
      }
    }
  }

  lemma {:induction false} PutHeaderGood(hs: Headers, key: string, value: string)
    requires GoodHeaders(hs) && GoodEntry((key, value))
    ensures GoodHeaders(PutHeader(hs, key, value))
  {
    PutHeaderSorted(hs, key, value);
    PutHeaderEntries(hs, key, value);
    var r := PutHeader(hs, key, value);
    forall i | 0 <= i < |r| ensures GoodEntry(r[i]) {
      assert r[i] in r;
    }
  }

  // ----- trimming

  lemma {:induction false} TrimRightSpaceIs(s: string)
    ensures var r := TrimRightSpace(s);
      && |r| <= |s| && r == s[..|r|] && (|r| > 0 ==> !IsSpace(r[|r| - 1]))
    ensures |s| > 0 && !IsSpace(s[|s| - 1]) ==> TrimRightSpace(s) == s
  {
    if |s| > 0 && IsSpace(s[|s| - 1]) { TrimRightSpaceIs(s[..|s| - 1]); }
  }

  lemma {:induction false} TrimLeftSpaceIs(s: string)
    ensures var r := TrimLeftSpace(s);
      && |r| <= |s| && r == s[|s| - |r|..] && (|r| > 0 ==> !IsSpace(r[0]))
    ensures |s| > 0 && !IsSpace(s[0]) ==> TrimLeftSpace(s) == s
  {
    if |s| > 0 && IsSpace(s[0]) { TrimLeftSpaceIs(s[1..]); }
  }

  /** Trimming leaves solid text made of the same characters. */
  lemma {:induction false} TrimIsSolid(s: string)
    ensures Solid(Trim(s)) && forall c :: c in Trim(s) ==> c in s
  {
    var r := TrimRightSpace(s);
    TrimRightSpaceIs(s);
    TrimLeftSpaceIs(r);
    var t := TrimLeftSpace(r);
    assert |t| > 0 ==> t[|t| - 1] == r[|r| - 1];
    forall c | c in t ensures c in s {
      assert c in r;
    }
  }

  lemma {:induction false} TrimOfSolid(s: string)
    requires Solid(s)
    ensures Trim(s) == s && Trim(" " + s) == s
  {
    TrimRightSpaceIs(s);
    TrimLeftSpaceIs(s);
    var p := " " + s;
    assert p[1..] == s;
    if |s| > 0 {
      TrimRightSpaceIs(p);
      assert TrimRightSpace(p) == p;
      assert TrimLeftSpace(p) == TrimLeftSpace(s);
    } else {
      assert p == " " && p[..0] == "";
      assert TrimRightSpace(p) == TrimRightSpace("");
    }
  }

  /** What wrapped base64 text consists of. */
  predicate IsBody(s: string) {
    && (forall i :: 0 <= i < |s| ==> s[i] == '\n' || s[i] == '=' || Base64.Value(s[i]).Some?)
    && (|s| > 0 ==> s[|s| - 1] == '\n')
  }

  lemma {:induction false} WrapBody(s: string)
    requires Base64.IsText(s)
    ensures IsBody(Wrap(s))
    ensures |s| > 0 ==> |Wrap(s)| > 0 && Wrap(s)[0] != '\n'
    ensures Base64.StripLineEnds(Wrap(s)) == s
    decreases |s|
  {
    if 0 < |s| <= 64 {
      Base64.StripText(s);
      StripConcat(s, "\n");
    } else if |s| > 64 {
      WrapBody(s[64..]);
      Base64.StripText(s[..64]);
      StripConcat(s[..64], "\n");
      StripConcat(s[..64] + "\n", Wrap(s[64..]));
      assert s == s[..64] + s[64..];
    }
  }

  lemma {:induction false} StripConcat(a: string, b: string)
    ensures Base64.StripLineEnds(a + b) == Base64.StripLineEnds(a) + Base64.StripLineEnds(b)
  {
    if |a| == 0 {
      assert a + b == b;
    } else {
      StripConcat(a[1..], b);
      TailOf(a, b);
      Assoc([a[0]], Base64.StripLineEnds(a[1..]), Base64.StripLineEnds(b));
    }
  }

  lemma {:induction false} RemoveBlanksBody(s: string)
    requires forall i :: 0 <= i < |s| ==> s[i] != ' ' && s[i] != '\t'
    ensures RemoveBlanks(s) == s
  {
    if |s| > 0 { RemoveBlanksBody(s[1..]); }
  }

  /** The first line of a text whose first line has no line end and no carriage return at its end. */
  lemma {:induction false} TrimmedFirstLine(line: string, rest: string)
    requires '\n' !in line && (|line| > 0 ==> line[|line| - 1] != '\r')
    ensures GetLine(line + "\n" + rest) == (TrimRight(line), rest)
  {
    var s := line + "\n" + rest;
    assert OccursAt(s, "\n", |line|);
    forall m | 0 <= m < |line| ensures !OccursAt(s, "\n", m) {
      assert s[m] == line[m];
      OccurrenceChars(s, "\n", m, 0);
    }
    IndexIs(s, "\n", |line|);
    assert s[..|line|] == line && s[|line| + 1..] == rest;
  }

  /** The same for a line without a blank at its end. */
  lemma {:induction false} FirstLine(line: string, rest: string)
    requires '\n' !in line
    requires |line| > 0 ==> line[|line| - 1] !in " \t\r"
    ensures GetLine(line + "\n" + rest) == (line, rest)
  {
    TrimmedFirstLine(line, rest);
  }

  lemma {:induction false} NoColon(line: string)
    requires ':' !in line
    ensures IndexOf(line, ":").None?
  {
    forall m | 0 <= m ensures !OccursAt(line, ":", m) {
      OccurrenceChars(line, ":", m, 0);
    }
  }

  /** A text that starts with a body line or a closing line has no more header lines. */
  lemma {:induction false} NoHeaders(line: string, rest: string, hs: Headers)
    requires ':' !in line && '\n' !in line
    requires |line| > 0 ==> line[|line| - 1] !in " \t\r"
    ensures ReadHeaders(line + "\n" + rest, hs) == Some((hs, line + "\n" + rest))
  {
    FirstLine(line, rest);
    NoColon(line);
  }

  // ----- reading header lines

  function HeaderLine(e: (string, string)): string {
    e.0 + ": " + e.1 + "\n"
  }

  /** Without a value, the blank after the colon is trimmed away. */
  function ReadLine(e: (string, string)): string {
    if e.1 == "" then e.0 + ":" else e.0 + ": " + e.1
  }

  lemma {:induction false} GetsHeaderLine(e: (string, string), rest: string)
    requires GoodEntry(e)
    ensures GetLine(HeaderLine(e) + rest) == (ReadLine(e), rest)
  {
    var line := e.0 + ": " + e.1;
    assert HeaderLine(e) + rest == line + "\n" + rest;
    assert |e.1| > 0 ==> line[|line| - 1] == e.1[|e.1| - 1];
    TrimmedFirstLine(line, rest);
    if e.1 == "" {
      assert line == e.0 + ":" + " ";
      assert line[..|line| - 1] == e.0 + ":";
      assert TrimRight(line) == TrimRight(e.0 + ":");
    }
  }

  /** The first colon is the one after the key. */
  lemma {:induction false} ColonAfterKey(key: string, more: string)
    requires ':' !in key
    ensures IndexOf(key + ":" + more, ":") == Some(|key|)
    ensures (key + ":" + more)[..|key|] == key && (key + ":" + more)[|key| + 1..] == more
  {
    var line, k := key + ":" + more, |key|;
    assert line[k..k + 1] == ":";
    forall m | 0 <= m < k ensures !OccursAt(line, ":", m) {
      assert line[m] == key[m];
      OccurrenceChars(line, ":", m, 0);
    }
    IndexIs(line, ":", k);
  }

  /** What a header line holds after its colon. */
  function AfterColon(value: string): string {
    if value == "" then "" else " " + value
  }

  lemma {:induction false} ReadLineParts(e: (string, string))
    ensures ReadLine(e) == e.0 + ":" + AfterColon(e.1)
  {
    if e.1 == "" {
      assert e.0 + ":" + "" == e.0 + ":";
    } else {
      assert e.0 + ": " + e.1 == e.0 + ":" + (" " + e.1);
    }
  }

  lemma {:induction false} SplitsHeaderLine(e: (string, string))
    requires GoodEntry(e)
    ensures var line := ReadLine(e);
      && IndexOf(line, ":") == Some(|e.0|)
      && Trim(line[..|e.0|]) == e.0 && Trim(line[|e.0| + 1..]) == e.1
  {
    ReadLineParts(e);
    ColonAfterKey(e.0, AfterColon(e.1));
    TrimOfSolid(e.0);
    TrimOfSolid(e.1);
  }

  lemma {:induction false} ReadsHeaderLine(e: (string, string), rest: string, hs: Headers)
    requires GoodEntry(e)
    ensures ReadHeaders(HeaderLine(e) + rest, hs) == ReadHeaders(rest, PutHeader(hs, e.0, e.1))
  {
    GetsHeaderLine(e, rest);
    SplitsHeaderLine(e);
  }

  /** The entries of one pass of the writer, put one after the other. */
  function PutLines(acc: Headers, hs: Headers, procType: bool): Headers
    decreases |hs|
  {
    if |hs| == 0 then acc
    else
      var acc' := if (hs[0].0 == "Proc-Type") == procType then PutHeader(acc, hs[0].0, hs[0].1) else acc;
      PutLines(acc', hs[1..], procType)
  }

  lemma {:induction false} ReadsHeaderLines(hs: Headers, procType: bool, rest: string, acc: Headers)
    requires forall i :: 0 <= i < |hs| ==> GoodEntry(hs[i])
    ensures ReadHeaders(HeaderLines(hs, procType) + rest, acc) == ReadHeaders(rest, PutLines(acc, hs, procType))
    decreases |hs|
  {
    var more := HeaderLines(hs, procType) + rest;
    if |hs| == 0 {
      assert more == rest;
    } else {
      var tail := HeaderLines(hs[1..], procType) + rest;
      assert GoodEntry(hs[0]);
      if (hs[0].0 == "Proc-Type") == procType {
        assert HeaderLines(hs, procType) == HeaderLine(hs[0]) + HeaderLines(hs[1..], procType);
        Assoc(HeaderLine(hs[0]), HeaderLines(hs[1..], procType), rest);
        ReadsHeaderLine(hs[0], tail, acc);
        ReadsHeaderLines(hs[1..], procType, rest, PutHeader(acc, hs[0].0, hs[0].1));
      } else {
        assert HeaderLines(hs, procType) == HeaderLines(hs[1..], procType);
        ReadsHeaderLines(hs[1..], procType, rest, acc);
      }
    }
  }

  /** The entry the writer puts first, if there is one. */
  function ProcType(hs: Headers): Headers {
    if |hs| == 0 then [] else (if hs[0].0 == "Proc-Type" then [hs[0]] else []) + ProcType(hs[1..])
  }

  lemma {:induction false} ProcTypeEntries(hs: Headers)
    ensures forall e :: e in ProcType(hs) ==> e in hs && e.0 == "Proc-Type"
  {
    if |hs| > 0 {
      ProcTypeEntries(hs[1..]);
      assert hs == [hs[0]] + hs[1..];
    }
  }

  lemma {:induction false} OneProcType(hs: Headers)
    requires Sorted(hs) && |hs| > 0 && hs[0].0 == "Proc-Type"
    ensures ProcType(hs[1..]) == []
  {
    SortedTail(hs);
    ProcTypeEntries(hs[1..]);
    var p := ProcType(hs[1..]);
    if |p| > 0 {
      assert p[0] in p;
      LessAsymmetric(hs[0].0, p[0].0);
    }
  }

  lemma {:induction false} FirstPassSkips(hs: Headers, acc: Headers)
    requires ProcType(hs) == []
    ensures PutLines(acc, hs, true) == acc
  {
    if |hs| > 0 { FirstPassSkips(hs[1..], acc); }
  }

  lemma {:induction false} FirstPass(hs: Headers)
    requires Sorted(hs)
    ensures PutLines([], hs, true) == ProcType(hs)
  {
    if |hs| > 0 {
      SortedTail(hs);
      if hs[0].0 == "Proc-Type" {
        OneProcType(hs);
        assert PutHeader([], hs[0].0, hs[0].1) == [hs[0]];
        FirstPassSkips(hs[1..], [hs[0]]);
      } else {
        FirstPass(hs[1..]);
      }
    }
  }

  /** An entry put between smaller and larger ones. */
  lemma {:induction false} PutBetween(a: Headers, e: (string, string), b: Headers)
    requires forall f :: f in a ==> Less(f.0, e.0)
    requires |b| > 0 ==> Less(e.0, b[0].0)
    ensures PutHeader(a + b, e.0, e.1) == a + [e] + b
  {
    if |a| == 0 {
      assert a + b == b && a + [e] + b == [e] + b;
    } else {
      assert a[0] in a;
      LessAsymmetric(a[0].0, e.0);
      TailOf(a, b);
      PutBetween(a[1..], e, b);
      assert a + [e] + b == [a[0]] + (a[1..] + [e] + b);
    }
  }

  /** The second pass fills in the other entries around the first one written. */
  lemma {:induction false} SecondPass(done: Headers, hs: Headers)
    requires Sorted(hs) && forall d, e :: d in done && e in hs ==> Less(d.0, e.0)
    ensures PutLines(done + ProcType(hs), hs, false) == done + hs
    decreases |hs|
  {
    if |hs| == 0 {
      assert done + ProcType(hs) == done + hs;
    } else {
      var e, rest := hs[0], hs[1..];
      SortedTail(hs);
      assert hs == [e] + rest;
      Assoc(done, [e], rest);
      Assoc(done, [e], ProcType(rest));
      NextDone(done, e, rest);
      SecondPass(done + [e], rest);
      if e.0 != "Proc-Type" {
        ProcTypeEntries(rest);
        assert ProcType(hs) == ProcType(rest);
        assert |ProcType(rest)| > 0 ==> ProcType(rest)[0] in ProcType(rest);
        PutBetween(done, e, ProcType(rest));
      }
    }
  }

  lemma {:induction false} NextDone(done: Headers, e: (string, string), rest: Headers)
    requires forall d, f :: d in done && f in [e] + rest ==> Less(d.0, f.0)
    requires forall f :: f in rest ==> Less(e.0, f.0)
    ensures forall d, f :: d in done + [e] && f in rest ==> Less(d.0, f.0)
    ensures forall d :: d in done ==> Less(d.0, e.0)
  {
    forall d, f | d in done + [e] && f in rest ensures Less(d.0, f.0) {
      assert f in [e] + rest;
      assert d in done || d == e;
    }
    forall d | d in done ensures Less(d.0, e.0) {
      assert e in [e] + rest;
    }
  }

  lemma {:induction false} BothPasses(hs: Headers)
    requires Sorted(hs)
    ensures PutLines(ProcType(hs), hs, false) == hs
  {
    SecondPass([], hs);
    assert [] + ProcType(hs) == ProcType(hs) && [] + hs == hs;
  }

  lemma {:induction false} HeaderTextShape(hs: Headers, rest: string)
    requires |hs| > 0
    ensures HeaderText(hs) + rest == HeaderLines(hs, true) + (HeaderLines(hs, false) + ("\n" + rest))
  {
    var one, two := HeaderLines(hs, true), HeaderLines(hs, false);
    Assoc(one, two, "\n");
    Assoc(one, two + "\n", rest);
    Assoc(two, "\n", rest);
  }

  lemma {:induction false} BlankLineEndsHeaders(hs: Headers, rest: string)
    ensures ReadHeaders("\n" + rest, hs) == Some((hs, "\n" + rest))
  {
    NoHeaders("", rest, hs);
    assert "" + "\n" + rest == "\n" + rest;
  }

  /** Header text is read back as the headers it was written from. */
  lemma {:induction false} ReadsHeaderText(hs: Headers, rest: string)
    requires GoodHeaders(hs) && |hs| > 0
    ensures ReadHeaders(HeaderText(hs) + rest, []) == Some((hs, "\n" + rest))
  {
    HeaderTextShape(hs, rest);
    ReadsTwoPasses(hs, "\n" + rest);
    BlankLineEndsHeaders(hs, rest);
  }

  lemma {:induction false} ReadsTwoPasses(hs: Headers, rest: string)
    requires GoodHeaders(hs)
    ensures ReadHeaders(HeaderLines(hs, true) + (HeaderLines(hs, false) + rest), []) == ReadHeaders(rest, hs)
  {
    ReadsHeaderLines(hs, true, HeaderLines(hs, false) + rest, []);
    FirstPass(hs);
    ReadsHeaderLines(hs, false, rest, ProcType(hs));
    BothPasses(hs);
  }

  // ----- reading bodies

  /** Wrapped text starts with a line of base64 characters. */
  lemma {:induction false} WrapFirstLine(s: string) returns (line: string, more: string)
    requires Base64.IsText(s) && |s| > 0
    ensures Wrap(s) == line + "\n" + more
    ensures Base64.IsText(line) && |line| > 0
  {
    if |s| <= 64 {
      line, more := s, "";
    } else {
      line, more := s[..64], Wrap(s[64..]);
    }
  }

  /** Leaving out the last line end makes no difference. */
  lemma {:induction false} StripCut(body: string)
    requires |body| > 0 && body[|body| - 1] == '\n'
    ensures Base64.StripLineEnds(body[..|body| - 1]) == Base64.StripLineEnds(body)
  {
    StripConcat(body[..|body| - 1], "\n");
    assert body == body[..|body| - 1] + "\n";
    assert Base64.StripLineEnds("\n") == "";
  }

  /** Where a body ends: before its last line end. */
  function CutAt(body: string): (n: nat)
    ensures n <= |body|
  {
    if |body| == 0 then 0 else |body| - 1
  }

  /** The closing line is recognised and what follows it is returned. */
  lemma {:induction false} ReadsClosingLine(kind: string, rest: string)
    requires '\n' !in kind
    ensures var after := Dashed(kind) + rest;
      && HasPrefix(after, kind + DASHES)
      && GetLine(after[|kind| + |DASHES|..]).0 == ""
      && GetLine(after).1 == rest
  {
    var after := Dashed(kind) + rest;
    assert after[..|kind| + |DASHES|] == kind + DASHES;
    assert after[|kind| + |DASHES|..] == "" + "\n" + rest;
    FirstLine("", rest);
    assert after == (kind + DASHES) + "\n" + rest;
    FirstLine(kind + DASHES, rest);
  }

  lemma {:induction false} NotClosing(s: string)
    requires |s| > 0 && s[0] != '-'
    ensures !HasPrefix(s, END)
  {
    if |s| >= |END| { assert s[..|END|][0] == s[0]; }
  }

  /** The closing marker is found right where the body ends. */
  lemma {:induction false} EndOfBody(body: string, after: string, noHeaders: bool)
    requires IsBody(body) && (|body| > 0 || noHeaders)
    ensures FindEnd(body + (END + after), noHeaders) == Some((CutAt(body), |body| + |END|))
  {
    var s := body + (END + after);
    if |body| == 0 {
      assert s[..|END|] == END;
    } else {
      assert s[0] == body[0] && s[0] != '-';
      NotClosing(s);
      var k := |body| - 1;
      assert s[k..k + 1 + |END|] == "\n" + END;
      forall m | 0 <= m < k ensures !OccursAt(s, "\n" + END, m) {
        OccurrenceChars(s, "\n" + END, m, 1);
        assert s[m + 1] == body[m + 1];
      }
      IndexIs(s, "\n" + END, k);
    }
  }

  lemma {:induction false} ReadBodyParts(s: string, kind: string, hs: Headers, bodyEnd: nat, trailer: nat,
                                         bytes: Bytes, rest: string)
    requires FindEnd(s, |hs| == 0) == Some((bodyEnd, trailer))
    requires HasPrefix(s[trailer..], kind + DASHES) && GetLine(s[trailer..][|kind| + |DASHES|..]).0 == ""
    requires GetLine(s[trailer..]).1 == rest
    requires Base64.Decode(RemoveBlanks(s[..bodyEnd])) == Some(bytes)
    ensures ReadBody(s, kind, hs) == Some((Block(kind, hs, bytes), rest))
  {
  }

  lemma {:induction false} ReadsBodyText(body: string, kind: string, hs: Headers, bytes: Bytes, rest: string)
    requires IsBody(body) && (|body| > 0 || |hs| == 0) && '\n' !in kind
    requires Base64.Decode(RemoveBlanks(body[..CutAt(body)])) == Some(bytes)
    ensures ReadBody(body + (END + (Dashed(kind) + rest)), kind, hs) == Some((Block(kind, hs, bytes), rest))
  {
    var after := Dashed(kind) + rest;
    var tail := body + (END + after);
    EndOfBody(body, after, |hs| == 0);
    assert tail[|body| + |END|..] == after;
    assert tail[..CutAt(body)] == body[..CutAt(body)];
    ReadsClosingLine(kind, rest);
    ReadBodyParts(tail, kind, hs, CutAt(body), |body| + |END|, bytes, rest);
  }

  /** The body as the reader finds it: after the headers it starts with the line end that ends them. */
  function BodyText(b: Block): string {
    (if |b.headers| == 0 then "" else "\n") + Wrap(Base64.Encode(b.bytes))
  }

  lemma {:induction false} LineEndFirst(body: string)
    requires IsBody(body)
    ensures IsBody("\n" + body) && Base64.StripLineEnds("\n" + body) == Base64.StripLineEnds(body)
  {
    var s := "\n" + body;
    assert s[1..] == body;
    assert forall i :: 0 <= i < |s| ==> s[i] == if i == 0 then '\n' else body[i - 1];
  }

  lemma {:induction false} BodyTextStrips(b: Block)
    ensures IsBody(BodyText(b)) && Base64.StripLineEnds(BodyText(b)) == Base64.Encode(b.bytes)
  {
    var text := Base64.Encode(b.bytes);
    Base64.EncodeIsText(b.bytes);
    WrapBody(text);
    if |b.headers| == 0 {
      assert BodyText(b) == Wrap(text);
    } else {
      LineEndFirst(Wrap(text));
    }
  }

  lemma {:induction false} BodyTextDecodes(b: Block)
    ensures IsBody(BodyText(b))
    ensures Base64.Decode(RemoveBlanks(BodyText(b)[..CutAt(BodyText(b))])) == Some(b.bytes)
  {
    BodyTextStrips(b);
    DecodesTo(BodyText(b), Base64.Encode(b.bytes), b.bytes);
  }

  lemma {:induction false} DecodesTo(body: string, text: string, bytes: Bytes)
    requires IsBody(body) && Base64.StripLineEnds(body) == text && text == Base64.Encode(bytes)
    ensures Base64.Decode(RemoveBlanks(body[..CutAt(body)])) == Some(bytes)
  {
    if |body| > 0 { StripCut(body); }
    BodyHasNoBlanks(body);
    RemoveBlanksBody(body[..CutAt(body)]);
    Base64.TextRoundTrip(bytes);
  }

  lemma {:induction false} BodyHasNoBlanks(body: string)
    requires IsBody(body)
    ensures forall i :: 0 <= i < |body| ==> body[i] != ' ' && body[i] != '\t'
  {
  }

  lemma {:induction false} ReadsBody(b: Block, rest: string)
    requires '\n' !in b.kind
    ensures ReadBody(BodyText(b) + (END + (Dashed(b.kind) + rest)), b.kind, b.headers) == Some((b, rest))
  {
    BodyTextDecodes(b);
    ReadsBodyText(BodyText(b), b.kind, b.headers, b.bytes, rest);
    assert b == Block(b.kind, b.headers, b.bytes);
  }

  /** Base64 text has no colon, so its first line is no header. */
  lemma {:induction false} TextIsNoHeader(text: string, closing: string)
    requires Base64.IsText(text) && |text| > 0
    ensures ReadHeaders(Wrap(text) + closing, []) == Some(([], Wrap(text) + closing))
  {
    var line, more := WrapFirstLine(text);
    Assoc(line + "\n", more, closing);
    NoHeaders(line, more + closing, []);
  }

  /** Nor is the closing line, unless the label has a colon. */
  lemma {:induction false} ClosingIsNoHeader(kind: string, rest: string)
    requires '\n' !in kind && ':' !in kind
    ensures ReadHeaders(END + (Dashed(kind) + rest), []) == Some(([], END + (Dashed(kind) + rest)))
  {
    var line := END + kind + DASHES;
    assert END + (Dashed(kind) + rest) == line + "\n" + rest;
    NoHeaders(line, rest, []);
  }

  lemma {:induction false} NoHeaderBefore(text: string, kind: string, rest: string)
    requires Base64.IsText(text) && '\n' !in kind && (|text| > 0 || ':' !in kind)
    ensures var tail := Wrap(text) + (END + (Dashed(kind) + rest)); ReadHeaders(tail, []) == Some(([], tail))
  {
    var closing := END + (Dashed(kind) + rest);
    if |text| == 0 {
      assert Wrap(text) + closing == closing;
      ClosingIsNoHeader(kind, rest);
    } else {
      TextIsNoHeader(text, closing);
    }
  }

  lemma {:induction false} NoHeaderText(b: Block, rest: string)
    requires '\n' !in b.kind && !(|b.bytes| == 0 && ':' in b.kind)
    ensures var tail := Wrap(Base64.Encode(b.bytes)) + (END + (Dashed(b.kind) + rest));
      ReadHeaders(tail, []) == Some(([], tail))
  {
    Base64.EncodeIsText(b.bytes);
    NoHeaderBefore(Base64.Encode(b.bytes), b.kind, rest);
  }

  /** After the opening line come the headers, and then the body is left. */
  lemma {:induction false} ReadsHeaders(b: Block, rest: string)
    requires Writable(b)
    ensures var closing := END + (Dashed(b.kind) + rest);
      ReadHeaders(HeaderText(b.headers) + (Wrap(Base64.Encode(b.bytes)) + closing), [])
      == Some((b.headers, BodyText(b) + closing))
  {
    var body, closing := Wrap(Base64.Encode(b.bytes)), END + (Dashed(b.kind) + rest);
    if |b.headers| > 0 {
      ReadsHeaderText(b.headers, body + closing);
      Assoc("\n", body, closing);
    } else {
      NoHeaderText(b, rest);
      NothingBefore(body, closing);
    }
  }

  lemma {:induction false} NothingBefore(body: string, closing: string)
    ensures HeaderText([]) + (body + closing) == body + closing && "" + body == body
  {
  }

  // ----- reading back what was written

  /** The search stops at an opening line that starts the text. */
  lemma {:induction false} OpeningLine(s: string, kind: string, tail: string)
    requires '\n' !in kind && s == BEGIN + (Dashed(kind) + tail)
    ensures AfterBegin(s) == Some(Dashed(kind) + tail)
    ensures GetLine(Dashed(kind) + tail) == (kind + DASHES, tail)
  {
    var s1 := Dashed(kind) + tail;
    assert s[..|BEGIN|] == BEGIN && s[|BEGIN|..] == s1;
    assert s1 == (kind + DASHES) + "\n" + tail;
    FirstLine(kind + DASHES, tail);
  }

  lemma {:induction false} TryKind(kind: string, tail: string)
    ensures TryBlock(kind + DASHES, tail) ==
      if ReadHeaders(tail, []).None? then NoMore
      else
        var (hs, body) := ReadHeaders(tail, []).value;
        if ReadBody(body, kind, hs).None? then FalseStart(body) else Found(ReadBody(body, kind, hs).value)
  {
    var line := kind + DASHES;
    assert line[|kind|..] == DASHES && line[..|kind|] == kind;
  }

  lemma {:induction false} DecodeParts(s: string, kind: string, tail: string, hs: Headers, body: string,
                                       found: (Block, string))
    requires '\n' !in kind && s == BEGIN + (Dashed(kind) + tail)
    requires ReadHeaders(tail, []) == Some((hs, body))
    requires ReadBody(body, kind, hs) == Some(found)
    ensures Decode(s) == Some(found)
  {
    OpeningLine(s, kind, tail);
    TryKind(kind, tail);
  }

  lemma {:induction false} EncodeShape(b: Block, rest: string)
    requires Canonical(b)
    ensures Encode(b) + rest == BEGIN + (Dashed(b.kind)
         + (HeaderText(b.headers) + (Wrap(Base64.Encode(b.bytes)) + (END + (Dashed(b.kind) + rest)))))
  {
    var hs, body, line := HeaderText(b.headers), Wrap(Base64.Encode(b.bytes)), Dashed(b.kind);
    assert forall i :: 0 <= i < |b.headers| ==> GoodEntry(b.headers[i]);
    Assoc(BEGIN, line + (hs + (body + (END + line))), rest);
    Assoc(line, hs + (body + (END + line)), rest);
    Assoc(hs, body + (END + line), rest);
    Assoc(body, END + line, rest);
    Assoc(END, line, rest);
  }

  /** A written block is read back exactly, whatever follows it. */
  lemma {:induction false} DecodeEncode(b: Block, rest: string)
    requires Writable(b)
    ensures Decode(Encode(b) + rest) == Some((b, rest))
  {
    var closing := END + (Dashed(b.kind) + rest);
    var tail := HeaderText(b.headers) + (Wrap(Base64.Encode(b.bytes)) + closing);
    EncodeShape(b, rest);
    ReadsHeaders(b, rest);
    ReadsBody(b, rest);
    DecodeParts(Encode(b) + rest, b.kind, tail, b.headers, BodyText(b) + closing, (b, rest));
  }

  lemma {:induction false} FirstOfBlocks(s: string, b: Block, rest: string)
    requires Decode(s) == Some((b, rest))
    ensures Blocks(s) == [b] + Blocks(rest)
  {
  }

  /** A text written block by block is read back as the same blocks. */
  lemma {:induction false} BlocksOfEncodeAll(bs: seq<Block>, rest: string)
    requires AllWritable(bs)
    ensures Blocks(EncodeAll(bs) + rest) == bs + Blocks(rest)
  {
    if |bs| == 0 {
      assert EncodeAll(bs) + rest == rest;
    } else {
      var more := EncodeAll(bs[1..]) + rest;
      BlocksOfEncodeAll(bs[1..], rest);
      DecodeEncode(bs[0], more);
      FirstOfBlocks(Encode(bs[0]) + more, bs[0], more);
      ConcatMapFirst(Encode, bs, rest);
      Assoc([bs[0]], bs[1..], Blocks(rest));
      assert bs == [bs[0]] + bs[1..];
    }
  }

  lemma {:induction false} ReadBackAll(bs: seq<Block>)
    requires AllWritable(bs)
    ensures Blocks(EncodeAll(bs)) == bs
  {
    BlocksOfEncodeAll(bs, "");
    assert EncodeAll(bs) + "" == EncodeAll(bs);
    assert bs + [] == bs;
  }

  lemma {:induction false} ReadBackOne(b: Block)
    requires Writable(b)
    ensures Blocks(Encode(b)) == [b]
  {
    ReadBackAll([b]);
    EncodeAllAppend([], b);
    assert [] + [b] == [b] && EncodeAll([]) + Encode(b) == Encode(b);
  }

  // ----- what was read can be written and read again

  lemma {:induction false} LineHasNoLineEnd(s: string)
    ensures '\n' !in GetLine(s).0
  {
    var r := IndexOf(s, "\n");
    var line := match r case None => s case Some(i) => s[..if i > 0 && s[i - 1] == '\r' then i - 1 else i];
    forall k | 0 <= k < |line| ensures line[k] != '\n' {
      assert line[k] == s[k] && !OccursAt(s, "\n", k);
      assert s[k..k + 1] == [s[k]];
    }
    TrimRightChars(line);
  }

  lemma {:induction false} TrimRightChars(s: string)
    ensures forall c :: c in TrimRight(s) ==> c in s
  {
    if |s| > 0 && s[|s| - 1] in " \t" {
      TrimRightChars(s[..|s| - 1]);
    }
  }

  /** A line with a colon gives a good entry. */
  lemma {:induction false} LineEntryIsGood(line: string, i: nat)
    requires '\n' !in line && IndexOf(line, ":") == Some(i)
    ensures GoodEntry((Trim(line[..i]), Trim(line[i + 1..])))
  {
    TrimIsSolid(line[..i]);
    TrimIsSolid(line[i + 1..]);
    forall k | 0 <= k < i ensures line[k] != ':' {
      assert !OccursAt(line, ":", k);
      assert line[k..k + 1] == [line[k]];
    }
  }

  lemma {:induction false} ReadHeadersAreGood(s: string, hs: Headers)
    requires GoodHeaders(hs)
    ensures ReadHeaders(s, hs).Some? ==> GoodHeaders(ReadHeaders(s, hs).value.0)
    decreases |s|
  {
    if |s| > 0 {
      var (line, next) := GetLine(s);
      LineHasNoLineEnd(s);
      var at := IndexOf(line, ":");
      if at.Some? {
        LineEntryIsGood(line, at.value);
        PutHeaderGood(hs, Trim(line[..at.value]), Trim(line[at.value + 1..]));
        ReadHeadersAreGood(next, PutHeader(hs, Trim(line[..at.value]), Trim(line[at.value + 1..])));
      }
    }
  }

  lemma {:induction false} ReadBodyKeeps(s: string, kind: string, hs: Headers)
    ensures ReadBody(s, kind, hs).Some? ==>
      ReadBody(s, kind, hs).value.0.kind == kind && ReadBody(s, kind, hs).value.0.headers == hs
  {
  }

  lemma {:induction false} FoundIsCanonical(line: string, s: string)
    requires '\n' !in line
    ensures TryBlock(line, s).Found? ==> Canonical(TryBlock(line, s).block.0)
  {
    if TryBlock(line, s).Found? {
      var (hs, body) := ReadHeaders(s, []).value;
      ReadHeadersAreGood(s, []);
      ReadBodyKeeps(body, line[..|line| - |DASHES|], hs);
    }
  }

  /** Every block read from a text is canonical. */
  lemma {:induction false} DecodedIsCanonical(s: string)
    ensures Decode(s).Some? ==> Canonical(Decode(s).value.0)
    decreases |s|
  {
    var opening := AfterBegin(s);
    if opening.Some? {
      var (line, rest) := GetLine(opening.value);
      LineHasNoLineEnd(opening.value);
      FoundIsCanonical(line, rest);
      var attempt := TryBlock(line, rest);
      if attempt.FalseStart? { DecodedIsCanonical(attempt.rest); }
    }
  }

  /** A degenerate block, written, is not read back. */
  lemma {:induction false} DegenerateIsLost(b: Block)
    requires Canonical(b) && Degenerate(b)
    ensures Decode(Encode(b) + "").None?
  {
    var line := END + b.kind + DASHES;
    var tail := HeaderText(b.headers) + (Wrap(Base64.Encode(b.bytes)) + (END + (Dashed(b.kind) + "")));
    EncodeShape(b, "");
    assert Base64.Encode(b.bytes) == "";
    assert tail == line + "\n" + "";
    ClosingLineIsHeader(line);
    NoBlockWithoutHeaders(Encode(b) + "", b.kind, tail);
  }

  lemma {:induction false} ClosingLineIsHeader(line: string)
    requires ':' in line && '\n' !in line && line[|line| - 1] !in " \t\r"
    ensures ReadHeaders(line + "\n" + "", []).None?
  {
    FirstLine(line, "");
    var i :| 0 <= i < |line| && line[i] == ':';
    assert line[i..i + 1] == ":";
    assert OccursAt(line, ":", i);
  }

  lemma {:induction false} NoBlockWithoutHeaders(s: string, kind: string, tail: string)
    requires '\n' !in kind && s == BEGIN + (Dashed(kind) + tail) && ReadHeaders(tail, []).None?
    ensures Decode(s).None?
  {
    OpeningLine(s, kind, tail);
    TryKind(kind, tail);
  }

  /** A block read from any text can be written and read back, whatever follows it, if and only if
      it is not degenerate. */
  lemma {:induction false} RewrittenIsReadBackIff(s: string)
    requires Decode(s).Some?
    ensures var b := Decode(s).value.0;
      (forall rest :: Decode(Encode(b) + rest) == Some((b, rest))) <==> !Degenerate(b)
  {
    var b := Decode(s).value.0;
    DecodedIsCanonical(s);
    if Degenerate(b) {
      DegenerateIsLost(b);
    } else {
      forall rest ensures Decode(Encode(b) + rest) == Some((b, rest)) {
        DecodeEncode(b, rest);
      }
    }
  }

  lemma {:induction false} BlocksAreCanonical(s: string)
    ensures forall i :: 0 <= i < |Blocks(s)| ==> Canonical(Blocks(s)[i])
    decreases |s|
  {
    var next := Decode(s);
    if next.Some? {
      DecodedIsCanonical(s);
      BlocksAreCanonical(next.value.1);
      FirstOfBlocks(s, next.value.0, next.value.1);
    }
  }
}
