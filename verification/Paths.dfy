/** Slash-separated relative paths: Go's `strings.Split`, `filepath.Clean` and `filepath.Join` on
    Unix, `strconv.Itoa`, and the file name check (`validateFileName`). */
module Paths {
  import opened Common
  import opened Text

  const SEP := '/'

  /** The components between separators; there is always at least one. */
  function Split(s: string): (r: seq<string>)
    ensures |r| > 0
  {
    if |s| == 0 then [""]
    else if s[0] == SEP then [""] + Split(s[1..])
    else Extend(s[0], Split(s[1..]))
  }

  /** A character put in front of the first component. */
  function Extend(c: char, parts: seq<string>): (r: seq<string>)
    requires |parts| > 0
    ensures |r| == |parts|
  {
    [[c] + parts[0]] + parts[1..]
  }

  function JoinParts(parts: seq<string>): string {
    if |parts| == 0 then ""
    else if |parts| == 1 then parts[0]
    else parts[0] + [SEP] + JoinParts(parts[1..])
  }

  /** One component at a time: empty and "." components vanish, ".." removes the component before
      it, at the root it vanishes and at the start of a relative path it stays. */
  function CleanParts(parts: seq<string>, rooted: bool, out: seq<string>): seq<string>
    decreases |parts|
  {
    if |parts| == 0 then out
    else
      var p := parts[0];
      var out' :=
        if p == "" || p == "." then out
        else if p != ".." then out + [p]
        else if |out| > 0 && out[|out| - 1] != ".." then out[..|out| - 1]
        else if rooted then out
        else out + [p];
      CleanParts(parts[1..], rooted, out')
  }

  function Clean(path: string): string {
    if path == "" then "."
    else
      var rooted := path[0] == SEP;
      var out := CleanParts(Split(path), rooted, []);
      if rooted then [SEP] + JoinParts(out)
      else if |out| == 0 then "."
      else JoinParts(out)
  }

  function Join(a: string, b: string): string {
    if a != "" then Clean(a + [SEP] + b)
    else if b != "" then Clean(b)
    else ""
  }

  function Itoa(n: nat): string {
    if n < 10 then [('0' as int + n) as char] else Itoa(n / 10) + Itoa(n % 10)
  }

  datatype FileNameError = EmptyName | AbsoluteName | DotDot

  function ValidateFileName(name: string): Option<FileNameError> {
    if |name| == 0 then Some(EmptyName)
    else if name[0] == SEP then Some(AbsoluteName)
    else if ".." in Split(name) then Some(DotDot)
    else if Contains(name, "..") then Some(DotDot)
    else None
  }

  // ----- splitting and joining

  lemma {:induction false} SplitNoSeparator(s: string)
    ensures forall i :: 0 <= i < |Split(s)| ==> SEP !in Split(s)[i]
  {
    if |s| > 0 {
      SplitNoSeparator(s[1..]);
      var rest := Split(s[1..]);
      forall i | 0 <= i < |Split(s)| ensures SEP !in Split(s)[i] {
        if s[0] == SEP {
          assert i > 0 ==> Split(s)[i] == rest[i - 1];
        } else {
          assert Split(s)[i] == if i == 0 then [s[0]] + rest[0] else rest[i];
        }
      }
    }
  }

  lemma {:induction false} SplitWhole(s: string)
    requires SEP !in s
    ensures Split(s) == [s]
  {
    if |s| > 0 {
      SplitWhole(s[1..]);
      assert s == [s[0]] + s[1..];
    }
  }

  lemma {:induction false} ExtendAppend(c: char, a: seq<string>, b: seq<string>)
    requires |a| > 0
    ensures Extend(c, a + b) == Extend(c, a) + b
  {
    assert (a + b)[1..] == a[1..] + b;
  }

  lemma {:induction false} SplitFirst(c: char, s: string)
    ensures Split([c] + s) == if c == SEP then [""] + Split(s) else Extend(c, Split(s))
  {
    assert ([c] + s)[1..] == s;
  }

  lemma {:induction false} FirstStays(c: char, s: string, b: string)
    ensures [c] + (s + [SEP] + b) == ([c] + s) + [SEP] + b
  {
  }

  lemma {:induction false} SplitAtStep(c: char, s: string, b: string)
    requires Split(s + [SEP] + b) == Split(s) + Split(b)
    ensures Split(([c] + s) + [SEP] + b) == Split([c] + s) + Split(b)
  {
    FirstStays(c, s, b);
    SplitFirst(c, s + [SEP] + b);
    SplitFirst(c, s);
    if c == SEP {
      Assoc([""], Split(s), Split(b));
    } else {
      ExtendAppend(c, Split(s), Split(b));
    }
  }

  /** A separator splits a text into the components of its two sides. */
  lemma {:induction false} SplitAt(a: string, b: string)
    ensures Split(a + [SEP] + b) == Split(a) + Split(b)
  {
    if |a| == 0 {
      assert a + [SEP] + b == [SEP] + b;
      SplitFirst(SEP, b);
    } else {
      SplitAt(a[1..], b);
      SplitAtStep(a[0], a[1..], b);
      assert a == [a[0]] + a[1..];
    }
  }

  /** The parts with text appended to the last one. */
  function AppendLast(parts: seq<string>, suffix: string): (r: seq<string>)
    requires |parts| > 0
    ensures |r| == |parts|
    ensures forall i :: 0 <= i < |r| ==> r[i] == if i < |parts| - 1 then parts[i] else parts[i] + suffix
  {
    parts[..|parts| - 1] + [parts[|parts| - 1] + suffix]
  }

  /** Text appended without a separator extends the last component. */
  lemma {:induction false} SplitSuffix(a: string, suffix: string)
    requires SEP !in suffix
    ensures Split(a + suffix) == AppendLast(Split(a), suffix)
  {
    if |a| == 0 {
      assert a + suffix == suffix;
      SplitWhole(suffix);
    } else {
      SplitSuffix(a[1..], suffix);
      assert (a + suffix)[1..] == a[1..] + suffix;
      var p := Split(a[1..]);
      if a[0] == SEP {
        assert [""] + AppendLast(p, suffix) == AppendLast([""] + p, suffix);
      } else {
        ExtendLast(a[0], p, suffix);
      }
    }
  }

  lemma {:induction false} ExtendLast(c: char, p: seq<string>, suffix: string)
    requires |p| > 0
    ensures Extend(c, AppendLast(p, suffix)) == AppendLast(Extend(c, p), suffix)
  {
    var x, y := Extend(c, AppendLast(p, suffix)), AppendLast(Extend(c, p), suffix);
    forall i | 0 <= i < |p| ensures x[i] == y[i] {
      if i == 0 { assert |p| == 1 ==> [c] + (p[0] + suffix) == ([c] + p[0]) + suffix; }
    }
  }

  lemma {:induction false} SplitJoined(parts: seq<string>)
    requires |parts| > 0 && forall i :: 0 <= i < |parts| ==> SEP !in parts[i]
    ensures Split(JoinParts(parts)) == parts
  {
    SplitWhole(parts[0]);
    if |parts| > 1 {
      SplitJoined(parts[1..]);
      SplitAt(parts[0], JoinParts(parts[1..]));
    }
  }

  // ----- accepted names

  /** What occurs in the tail of a text occurs one place later in the text. */
  lemma {:induction false} OccursLater(s: string, p: string, m: nat)
    requires |s| > 0 && OccursAt(s[1..], p, m)
    ensures OccursAt(s, p, m + 1)
    ensures m == 0 ==> OccursAt(s, [s[0]] + p, 0)
  {
    assert s[m + 1..m + 1 + |p|] == s[1..][m..m + |p|];
    if m == 0 { assert s[0..1 + |p|] == [s[0]] + s[1..][0..|p|]; }
  }

  /** Every component of a text occurs in it. */
  lemma {:induction false} PartOccurs(s: string, i: nat) returns (k: nat)
    requires i < |Split(s)|
    ensures OccursAt(s, Split(s)[i], k) && (i == 0 ==> k == 0)
  {
    if |s| == 0 || (s[0] == SEP && i == 0) {
      k := 0;
      assert Split(s)[i] == "" && s[0..0] == "";
    } else {
      var j := if s[0] == SEP then i - 1 else i;
      var m := PartOccurs(s[1..], j);
      OccursLater(s, Split(s[1..])[j], m);
      k := if i == 0 then 0 else m + 1;
    }
  }

  /** The component check is subsumed by the search for ".." anywhere in the name. */
  lemma {:induction false} FileNameAcceptedIff(name: string)
    ensures ValidateFileName(name).None? <==> name != "" && name[0] != SEP && !Contains(name, "..")
  {
    if ".." in Split(name) {
      var i :| 0 <= i < |Split(name)| && Split(name)[i] == "..";
      var k := PartOccurs(name, i);
      assert OccursAt(name, "..", k);
    }
  }

  /** A relative name with at most one dot is accepted. */
  lemma {:induction false} NoTwoDots(name: string, dot: nat)
    requires name != "" && name[0] != SEP && forall i :: 0 <= i < |name| && i != dot ==> name[i] != '.'
    ensures ValidateFileName(name).None?
  {
    FileNameAcceptedIff(name);
    var at := IndexOf(name, "..");
    if at.Some? {
      OccurrenceChars(name, "..", at.value, 0);
      OccurrenceChars(name, "..", at.value, 1);
    }
  }

  // ----- cleaning a path without ".."

  function KeepPart(p: string): seq<string> {
    if p == "" || p == "." then [] else [p]
  }

  function DropDots(parts: seq<string>): seq<string> {
    if |parts| == 0 then [] else KeepPart(parts[0]) + DropDots(parts[1..])
  }

  lemma {:induction false} DropDotsParts(parts: seq<string>)
    ensures forall p :: p in DropDots(parts) <==> p in parts && p != "" && p != "."
  {
    if |parts| > 0 {
      DropDotsParts(parts[1..]);
      assert parts == [parts[0]] + parts[1..];
    }
  }

  lemma {:induction false} KeptParts(parts: seq<string>)
    requires ".." !in parts && forall i :: 0 <= i < |parts| ==> SEP !in parts[i]
    ensures forall i :: 0 <= i < |DropDots(parts)| ==>
      DropDots(parts)[i] !in ["", ".", ".."] && SEP !in DropDots(parts)[i]
  {
    DropDotsParts(parts);
    forall i | 0 <= i < |DropDots(parts)|
      ensures DropDots(parts)[i] !in ["", ".", ".."] && SEP !in DropDots(parts)[i]
    {
      assert DropDots(parts)[i] in DropDots(parts);
    }
  }

  lemma {:induction false} CleanDropsDots(parts: seq<string>, rooted: bool, out: seq<string>)
    requires ".." !in parts
    ensures CleanParts(parts, rooted, out) == out + DropDots(parts)
    decreases |parts|
  {
    if |parts| > 0 {
      assert parts[0] in parts;
      var kept := out + KeepPart(parts[0]);
      assert out + [] == out;
      CleanDropsDots(parts[1..], rooted, kept);
      assert kept + DropDots(parts[1..]) == out + DropDots(parts);
    }
  }

  lemma {:induction false} DropDotsAppend(a: seq<string>, b: seq<string>)
    ensures DropDots(a + b) == DropDots(a) + DropDots(b)
  {
    if |a| == 0 {
      assert a + b == b;
    } else {
      DropDotsAppend(a[1..], b);
      TailOf(a, b);
      Assoc(KeepPart(a[0]), DropDots(a[1..]), DropDots(b));
    }
  }

  /** On a relative path without "..", cleaning is dropping empty and "." components. */
  lemma {:induction false} CleanRelative(path: string)
    requires path != "" && path[0] != SEP && ".." !in Split(path)
    ensures Clean(path) == if |DropDots(Split(path))| == 0 then "." else JoinParts(DropDots(Split(path)))
  {
    CleanDropsDots(Split(path), false, []);
    assert [] + DropDots(Split(path)) == DropDots(Split(path));
  }

  lemma {:induction false} CleanPartsSolid(parts: seq<string>, rooted: bool, out: seq<string>)
    requires "" !in out
    ensures "" !in CleanParts(parts, rooted, out)
    decreases |parts|
  {
    if |parts| > 0 {
      var p := parts[0];
      var out' :=
        if p == "" || p == "." then out
        else if p != ".." then out + [p]
        else if |out| > 0 && out[|out| - 1] != ".." then out[..|out| - 1]
        else if rooted then out
        else out + [p];
      CleanPartsSolid(parts[1..], rooted, out');
    }
  }

  /** A cleaned path is never empty. */
  lemma {:induction false} CleanNotEmpty(path: string)
    ensures Clean(path) != ""
  {
    if path != "" {
      var out := CleanParts(Split(path), path[0] == SEP, []);
      CleanPartsSolid(Split(path), path[0] == SEP, []);
      if |out| > 0 { assert out[0] in out; }
    }
  }

  /** A component and a ".." after it cancel out; a ".." at the start stays in a relative path and
      vanishes at the root. */
  lemma {:induction false} ParentCancels(x: string, parts: seq<string>, rooted: bool, out: seq<string>)
    requires x !in ["", ".", ".."]
    ensures CleanParts([x, ".."] + parts, rooted, out) == CleanParts(parts, rooted, out)
    ensures CleanParts([".."] + parts, rooted, []) == CleanParts(parts, rooted, if rooted then [] else [".."])
  {
    assert [x, ".."] + parts == [x] + ([".."] + parts);
    TailOf([x], [".."] + parts);
    TailOf([".."], parts);
    assert (out + [x])[..|out|] == out;
    assert [] + [".."] == [".."];
  }

  // ----- numbers as text

  predicate IsDigits(s: string) {
    |s| > 0 && forall i :: 0 <= i < |s| ==> '0' <= s[i] <= '9'
  }

  lemma {:induction false} ItoaIsDigits(n: nat)
    ensures IsDigits(Itoa(n))
  {
    if n >= 10 { ItoaIsDigits(n / 10); }
  }

  lemma {:induction false} ItoaInjective(m: nat, n: nat)
    requires Itoa(m) == Itoa(n)
    ensures m == n
  {
    ItoaLast(m);
    ItoaLast(n);
    if m >= 10 && n >= 10 {
      assert Itoa(m)[..|Itoa(m)| - 1] == Itoa(n)[..|Itoa(n)| - 1];
      ItoaInjective(m / 10, n / 10);
    }
  }

  lemma {:induction false} ItoaLast(n: nat)
    ensures var s := Itoa(n);
      && |s| > 0 && s[|s| - 1] == ('0' as int + n % 10) as char
      && (n >= 10 ==> |s| > 1 && s[..|s| - 1] == Itoa(n / 10))
      && (n < 10 ==> |s| == 1)
  {
    if n >= 10 { ItoaIsDigits(n / 10); }
  }

  /** The number a text of digits stands for. */
  function Decimal(s: string): nat
    requires forall i :: 0 <= i < |s| ==> '0' <= s[i] <= '9'
  {
    if |s| == 0 then 0 else 10 * Decimal(s[..|s| - 1]) + (s[|s| - 1] as int - '0' as int)
  }

  /** A number is written in decimal digits, without leading zeros. */
  lemma {:induction false} ItoaIsDecimal(n: nat)
    ensures IsDigits(Itoa(n)) && Decimal(Itoa(n)) == n && (|Itoa(n)| > 1 ==> Itoa(n)[0] != '0')
  {
    ItoaIsDigits(n);
    ItoaLast(n);
    if n >= 10 {
      ItoaIsDecimal(n / 10);
      ItoaFirst(n);
    }
  }

  lemma {:induction false} ItoaFirst(n: nat)
    ensures |Itoa(n)| > 0 && (n > 0 ==> Itoa(n)[0] != '0')
  {
    if n >= 10 { ItoaFirst(n / 10); }
  }

  // ----- versioned names

  /** The name with the number below it, before it is cleaned. */
  lemma {:induction false} NumberedParts(base: string, i: nat)
    ensures Split(base + [SEP] + Itoa(i)) == Split(base) + [Itoa(i)]
    ensures DropDots(Split(base) + [Itoa(i)]) == DropDots(Split(base)) + [Itoa(i)]
  {
    ItoaIsDigits(i);
    SplitAt(base, Itoa(i));
    SplitWhole(Itoa(i));
    DropDotsAppend(Split(base), [Itoa(i)]);
    assert DropDots([Itoa(i)]) == [Itoa(i)];
  }

  /** The alias of version `i` below an accepted base name: the cleaned base and the number as a
      last component of its own. */
  lemma {:induction false} AliasShape(base: string, i: nat)
    requires ValidateFileName(base).None?
    ensures Split(Join(base, Itoa(i))) == DropDots(Split(base)) + [Itoa(i)]
    ensures Join(base, Itoa(i)) != ""
  {
    var path := base + [SEP] + Itoa(i);
    NumberedParts(base, i);
    NumberIsPlain(i);
    CleanRelative(path);
    SplitNoSeparator(base);
    KeptParts(Split(base));
    SplitJoined(DropDots(Split(base)) + [Itoa(i)]);
  }

  lemma {:induction false} NumberIsPlain(i: nat)
    ensures SEP !in Itoa(i) && Itoa(i) != "" && Itoa(i) != ".."
  {
    ItoaIsDigits(i);
    assert '0' <= Itoa(i)[0] <= '9';
  }

  // ----- staying below the mount root

  /** The directory depth after walking the components from depth `d`, or nothing if the walk
      leaves the directory it started in. */
  function Depth(parts: seq<string>, d: nat): Option<nat> {
    if |parts| == 0 then Some(d)
    else if parts[0] == "" || parts[0] == "." then Depth(parts[1..], d)
    else if parts[0] == ".." then if d == 0 then None else Depth(parts[1..], d - 1)
    else Depth(parts[1..], d + 1)
  }

  /** A relative path no prefix of which leaves the mount root. */
  ghost predicate StaysBelow(path: string) {
    && (path == "" || path[0] != SEP)
    && ".." !in Split(path)
    && forall k :: 0 <= k <= |Split(path)| ==> Depth(Split(path)[..k], 0).Some?
  }

  lemma {:induction false} NoDotDotStays(parts: seq<string>, d: nat)
    requires ".." !in parts
    ensures Depth(parts, d).Some?
  {
    if |parts| > 0 {
      NoDotDotStays(parts[1..], if parts[0] == "" || parts[0] == "." then d else d + 1);
    }
  }

  lemma {:induction false} RelativeStays(path: string)
    requires path != "" && path[0] != SEP && ".." !in Split(path)
    ensures StaysBelow(path)
  {
    forall k | 0 <= k <= |Split(path)| ensures Depth(Split(path)[..k], 0).Some? {
      NoDotDotStays(Split(path)[..k], 0);
    }
  }

  predicate IsSuffix(s: string) {
    s == "" || s == ".crt" || s == ".key"
  }

  lemma {:induction false} FirstPart(path: string)
    requires path != ""
    ensures path[0] == SEP <==> Split(path)[0] == ""
  {
  }

  /** A file name suffix keeps an accepted name below the mount root. */
  lemma {:induction false} PlainPathStays(base: string, suffix: string)
    requires ValidateFileName(base).None? && IsSuffix(suffix)
    ensures StaysBelow(base + suffix)
  {
    SplitSuffix(base, suffix);
    var p, q := Split(base), Split(base + suffix);
    forall i | 0 <= i < |q| ensures q[i] != ".." {
      assert p[i] in p;
      assert q[i] == p[i] || |q[i]| >= |suffix| > 2;
    }
    RelativeStays(base + suffix);
  }

  /** A path whose components are neither empty nor ".." is relative and stays below the root. */
  lemma {:induction false} SolidPartsStay(path: string)
    requires path != "" && forall k :: 0 <= k < |Split(path)| ==> Split(path)[k] != "" && Split(path)[k] != ".."
    ensures StaysBelow(path)
  {
    FirstPart(path);
    RelativeStays(path);
  }

  lemma {:induction false} SuffixedAlias(base: string, i: nat, suffix: string)
    requires ValidateFileName(base).None? && IsSuffix(suffix)
    ensures Split(Join(base, Itoa(i)) + suffix) == DropDots(Split(base)) + [Itoa(i) + suffix]
  {
    AliasShape(base, i);
    SplitSuffix(Join(base, Itoa(i)), suffix);
    assert AppendLast(DropDots(Split(base)) + [Itoa(i)], suffix) == DropDots(Split(base)) + [Itoa(i) + suffix];
  }

  lemma {:induction false} NumberIsSolid(i: nat, suffix: string)
    ensures Itoa(i) + suffix != "" && Itoa(i) + suffix != ".."
  {
    ItoaIsDigits(i);
    assert (Itoa(i) + suffix)[0] == Itoa(i)[0];
  }

  /** So does a version number as a last component. */
  lemma {:induction false} VersionPathStays(base: string, i: nat, suffix: string)
    requires ValidateFileName(base).None? && IsSuffix(suffix)
    ensures StaysBelow(Join(base, Itoa(i)) + suffix)
    ensures Split(Join(base, Itoa(i)) + suffix) == DropDots(Split(base)) + [Itoa(i) + suffix]
  {
    AliasShape(base, i);
    SuffixedAlias(base, i, suffix);
    NumberIsSolid(i, suffix);
    SplitNoSeparator(base);
    KeptParts(Split(base));
    SolidPartsStay(Join(base, Itoa(i)) + suffix);
  }

  lemma {:induction false} DigitsThenSuffix(a: string, s: string, b: string, t: string)
    requires IsDigits(a) && IsDigits(b) && IsSuffix(s) && IsSuffix(t) && a + s == b + t
    ensures a == b && s == t
  {
    SuffixStart(a, s, b, t);
    SuffixStart(b, t, a, s);
    assert a == (a + s)[..|a|] && b == (b + t)[..|b|];
    assert s == (a + s)[|a|..] && t == (b + t)[|b|..];
  }

  lemma {:induction false} SuffixStart(a: string, s: string, b: string, t: string)
    requires IsDigits(b) && IsSuffix(s) && a + s == b + t
    ensures |a| >= |b|
  {
    assert |s| > 0 ==> (a + s)[|a|] == s[0];
    assert forall k :: 0 <= k < |b| ==> (a + s)[k] == b[k];
  }

  /** The paths of one object are distinct for distinct versions and suffixes. */
  lemma {:induction false} VersionPathsDistinct(base: string, i: nat, s: string, j: nat, t: string)
    requires ValidateFileName(base).None? && IsSuffix(s) && IsSuffix(t)
    requires Join(base, Itoa(i)) + s == Join(base, Itoa(j)) + t
    ensures i == j && s == t
  {
    VersionPathStays(base, i, s);
    VersionPathStays(base, j, t);
    var d := DropDots(Split(base));
    assert (d + [Itoa(i) + s])[|d|] == (d + [Itoa(j) + t])[|d|];
    ItoaIsDigits(i);
    ItoaIsDigits(j);
    DigitsThenSuffix(Itoa(i), s, Itoa(j), t);
    ItoaInjective(i, j);
  }
}
