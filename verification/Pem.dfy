/** PEM text (RFC 7468) as Go's `encoding/pem` reads and writes it up to release 1.25.1. */
module Pem {
  import opened Common
  import opened Text
  import Base64

  const BEGIN := "-----BEGIN "
  const END := "-----END "
  const DASHES := "-----"

  /** Go keeps headers in a map; here they are its entries sorted by key. */
  type Headers = seq<(string, string)>

  datatype Block = Block(kind: string, headers: Headers, bytes: Bytes)

  function PutHeader(hs: Headers, key: string, value: string): Headers {
    if |hs| == 0 || Less(key, hs[0].0) then [(key, value)] + hs
    else if key == hs[0].0 then [(key, value)] + hs[1..]
    else [hs[0]] + PutHeader(hs[1..], key, value)
  }

  // ----- writing

  /** Lines of 64 characters, each with a line end. */
  function Wrap(s: string): string {
    if |s| == 0 then ""
    else if |s| <= 64 then s + "\n"
    else s[..64] + "\n" + Wrap(s[64..])
  }

  function HeaderLines(hs: Headers, procType: bool): string {
    if |hs| == 0 then ""
    else
      (if (hs[0].0 == "Proc-Type") == procType then hs[0].0 + ": " + hs[0].1 + "\n" else "")
      + HeaderLines(hs[1..], procType)
  }

  /** A block with a colon in a header key cannot be written and yields nothing. */
  function Encode(b: Block): string {
    if exists i :: 0 <= i < |b.headers| && ':' in b.headers[i].0 then ""
    else BEGIN + (Dashed(b.kind) + (HeaderText(b.headers) + (Wrap(Base64.Encode(b.bytes)) + (END + Dashed(b.kind)))))
  }

  /** How an opening or closing line goes on after its marker. */
  function Dashed(kind: string): string {
    kind + DASHES + "\n"
  }

  function HeaderText(hs: Headers): string {
    if |hs| == 0 then "" else HeaderLines(hs, true) + HeaderLines(hs, false) + "\n"
  }

  function EncodeAll(bs: seq<Block>): string {
    ConcatMap(Encode, bs)
  }

  lemma {:induction false} EncodeAllAppend(bs: seq<Block>, b: Block)
    ensures EncodeAll(bs + [b]) == EncodeAll(bs) + Encode(b)
  {
    ConcatMapAppend(Encode, bs, [b]);
    assert ConcatMap(Encode, [b]) == Encode(b) + "";
  }

  // ----- reading

  /** The first line without its line end and trailing blanks, and what follows it. */
  function GetLine(s: string): (r: (string, string))
    ensures |r.1| <= |s| && (|s| > 0 ==> |r.1| < |s|)
  {
    match IndexOf(s, "\n")
    case None => (TrimRight(s), "")
    case Some(i) => (TrimRight(s[..if i > 0 && s[i - 1] == '\r' then i - 1 else i]), s[i + 1..])
  }

  /** What follows the first opening marker that stands at the start or after a line end. */
  function AfterBegin(s: string): (r: Option<string>)
    ensures r.Some? ==> |r.value| < |s|
  {
    if HasPrefix(s, BEGIN) then Some(s[|BEGIN|..])
    else match IndexOf(s, "\n" + BEGIN)
      case None => None
      case Some(i) => Some(s[i + 1 + |BEGIN|..])
  }

  /** Header lines are the lines with a colon; none if the text ends before another line. */
  function ReadHeaders(s: string, hs: Headers): (r: Option<(Headers, string)>)
    ensures r.Some? ==> |r.value.1| <= |s|
    decreases |s|
  {
    if |s| == 0 then None
    else
      var (line, next) := GetLine(s);
      match IndexOf(line, ":")
      case None => Some((hs, s))
      case Some(i) =>
        ReadHeaders(next, PutHeader(hs, Trim(line[..i]), Trim(line[i + 1..])))
  }

  function RemoveBlanks(s: string): string {
    if |s| == 0 then ""
    else if s[0] in " \t" then RemoveBlanks(s[1..])
    else [s[0]] + RemoveBlanks(s[1..])
  }

  /** Where the body ends and where the text after the closing marker starts. */
  function FindEnd(s: string, noHeaders: bool): (r: Option<(nat, nat)>)
    ensures r.Some? ==> r.value.0 <= r.value.1 <= |s| && r.value.1 > 0
  {
    if noHeaders && HasPrefix(s, END) then Some((0, |END|))
    else match IndexOf(s, "\n" + END)
      case None => None
      case Some(i) => Some((i, i + 1 + |END|))
  }

  /** The body and closing line of a block with the given label and headers. */
  function ReadBody(s: string, kind: string, hs: Headers): (r: Option<(Block, string)>)
    ensures r.Some? ==> |r.value.1| < |s|
  {
    match FindEnd(s, |hs| == 0)
    case None => None
    case Some((bodyEnd, trailer)) =>
      var after := s[trailer..];
      if !HasPrefix(after, kind + DASHES) then None
      else if GetLine(after[|kind| + |DASHES|..]).0 != "" then None
      else match Base64.Decode(RemoveBlanks(s[..bodyEnd]))
        case None => None
        case Some(bytes) => Some((Block(kind, hs, bytes), GetLine(after).1))
  }

  /** What becomes of an opening line: a block, a false start after which the search goes on, or the
      end of the search. */
  datatype Attempt = Found(block: (Block, string)) | FalseStart(rest: string) | NoMore

  function TryBlock(line: string, s: string): (r: Attempt)
    ensures r.Found? ==> |r.block.1| <= |s|
    ensures r.FalseStart? ==> |r.rest| <= |s|
  {
    if !HasSuffix(line, DASHES) then FalseStart(s)
    else match ReadHeaders(s, [])
      case None => NoMore
      case Some((hs, body)) =>
        match ReadBody(body, line[..|line| - |DASHES|], hs)
        case None => FalseStart(body)
        case Some(found) => Found(found)
  }

  /** The first block of a text and what follows it. Anything before the block, and anything that
      starts like a block but is not one, is skipped. */
  function Decode(s: string): (r: Option<(Block, string)>)
    ensures r.Some? ==> |r.value.1| < |s|
    decreases |s|
  {
    match AfterBegin(s)
    case None => None
    case Some(opening) =>
      match TryBlock(GetLine(opening).0, GetLine(opening).1)
      case Found(found) => Some(found)
      case FalseStart(rest) => Decode(rest)
      case NoMore => None
  }

  /** All blocks of a text, in order. */
  function Blocks(s: string): seq<Block>
    decreases |s|
  {
    match Decode(s)
    case None => []
    case Some((b, rest)) => [b] + Blocks(rest)
  }

  /** `pem.Decode` as the provider's loops use it: the next block, if there is one. */
  method NextBlock(s: string) returns (r: Option<(Block, string)>)
    ensures match r
            case None => Blocks(s) == []
            case Some((b, rest)) => |rest| < |s| && Blocks(s) == [b] + Blocks(rest)
  {
    r := Decode(s);
  }
}
