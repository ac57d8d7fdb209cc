/** The TLS server name of the token proxy (`resolveServerName`, the SAN loop of
    `extractClusterID`). */
module ServerName {
  import opened Common
  import opened Text
  import Fold
  import Base32Hex

  const SALT := "identity-binding"
  const PREFIX := "a"
  const SUFFIX := ".ests.aks"
  const SAN_PREFIX := "hcp-kubernetes."
  const SAN_SUFFIX := ".svc.cluster.local"

  /** A hash function with 32-byte digests. */
  ghost predicate IsDigest(hash: string -> Bytes) {
    forall s :: |hash(s)| == 32
  }

  function Label(digest: Bytes): string {
    Fold.ToLower(PREFIX + Base32Hex.Encode(digest))
  }

  function ResolveServerName(hash: string -> Bytes, clusterId: string): string {
    Fold.ToLower(PREFIX + Base32Hex.Encode(hash(SALT + clusterId)) + SUFFIX)
  }

  /** A label in the preferred syntax of section 2.3.1 of RFC 1035, within the length limit of
      section 2.3.4: it starts with a letter, ends with a letter or digit, and holds only letters,
      digits and hyphens. */
  predicate IsDnsLabel(s: string) {
    && 0 < |s| <= 63
    && ('a' <= s[0] <= 'z' || 'A' <= s[0] <= 'Z')
    && s[|s| - 1] != '-'
    && forall i :: 0 <= i < |s| ==> 'a' <= s[i] <= 'z' || 'A' <= s[i] <= 'Z' || '0' <= s[i] <= '9' || s[i] == '-'
  }

  /** For every cluster and every 32-byte digest, the name is a 53-character DNS label that starts
      with a letter, followed by the fixed suffix. */
  lemma {:induction false} NameShape(hash: string -> Bytes, clusterId: string)
    requires IsDigest(hash)
    ensures var name := ResolveServerName(hash, clusterId);
      && |name| == 62 && name[53..] == ".ests.aks"
      && name[0] == 'a' && name[1..53] == Fold.ToLower(Base32Hex.Encode(hash("identity-binding" + clusterId)))
      && name[..53] == Label(hash(SALT + clusterId))
      && IsDnsLabel(name[..53])
  {
    var digest := hash(SALT + clusterId);
    assert |digest| == 32;
    LabelShape(digest);
    Fold.ToLowerAppend(PREFIX + Base32Hex.Encode(digest), SUFFIX);
    Fold.ToLowerAppend(PREFIX, Base32Hex.Encode(digest));
    SuffixIsLower();
  }

  lemma {:induction false} SuffixIsLower()
    ensures Fold.ToLower(SUFFIX) == SUFFIX
  {
  }

  lemma {:induction false} LabelShape(digest: Bytes)
    requires |digest| == 32
    ensures |Label(digest)| == 53 && IsDnsLabel(Label(digest))
  {
    var code, s := Base32Hex.Encode(digest), Label(digest);
    assert |code| == 52;
    assert forall i :: 1 <= i < 53 ==> s[i] == Fold.LowerChar(code[i - 1]);
  }

  lemma {:induction false} LowerInjective(c: char, d: char)
    requires '0' <= c <= '9' || 'A' <= c <= 'V'
    requires '0' <= d <= '9' || 'A' <= d <= 'V'
    requires Fold.LowerChar(c) == Fold.LowerChar(d)
    ensures c == d
  {
  }

  /** Two clusters get the same name only if their digests are the same. */
  lemma {:induction false} NamesAreDistinct(hash: string -> Bytes, a: string, b: string)
    requires IsDigest(hash) && ResolveServerName(hash, a) == ResolveServerName(hash, b)
    ensures hash(SALT + a) == hash(SALT + b)
  {
    var x, y := hash(SALT + a), hash(SALT + b);
    NameShape(hash, a);
    NameShape(hash, b);
    SameLabelSameDigest(x, y);
  }

  lemma {:induction false} SameLabelSameDigest(x: Bytes, y: Bytes)
    requires Label(x) == Label(y)
    ensures x == y
  {
    var p, q := Base32Hex.Encode(x), Base32Hex.Encode(y);
    assert |Label(x)| == |p| + 1 && |Label(y)| == |q| + 1;
    forall i | 0 <= i < |p| ensures p[i] == q[i] {
      assert Label(x)[i + 1] == Fold.LowerChar((PREFIX + p)[i + 1]);
      assert Label(y)[i + 1] == Fold.LowerChar((PREFIX + q)[i + 1]);
      LowerInjective(p[i], q[i]);
    }
    assert p == q;
    Base32Hex.Injective(x, y);
  }

  // ----- the cluster identifier among the subject alternative names

  /** Reading the identifier either succeeds, fails, or stops the program because the slice bounds
      cross. */
  datatype ClusterId = Found(id: string) | EmptyId | NotFound | OutOfRange

  predicate Matches(san: string) {
    HasPrefix(san, SAN_PREFIX) && HasSuffix(san, SAN_SUFFIX)
  }

  const OVERLAP := "hcp-kubernetes.svc.cluster.local"

  method ExtractClusterId(sans: seq<string>) returns (r: ClusterId)
    ensures match r
      case Found(id) =>
        id != "" && exists i :: 0 <= i < |sans| && sans[i] == SAN_PREFIX + id + SAN_SUFFIX && FirstMatching(sans, i)
      case EmptyId => exists i :: 0 <= i < |sans| && sans[i] == SAN_PREFIX + SAN_SUFFIX && FirstMatching(sans, i)
      case OutOfRange => exists i :: 0 <= i < |sans| && sans[i] == OVERLAP && FirstMatching(sans, i)
      case NotFound => forall i :: 0 <= i < |sans| ==> !Matches(sans[i])
  {
    for i := 0 to |sans|
      invariant forall j :: 0 <= j < i ==> !Matches(sans[j])
    {
      var san := sans[i];
      if HasPrefix(san, SAN_PREFIX) && HasSuffix(san, SAN_SUFFIX) {
        var lo, hi := |SAN_PREFIX|, |san| - |SAN_SUFFIX|;
        assert FirstMatching(sans, i);
        if hi < lo {
          CrossedIffOverlap(san);
          return OutOfRange;
        }
        var id := san[lo..hi];
        Sliced(san);
        if id == "" {
          assert SAN_PREFIX + "" + SAN_SUFFIX == SAN_PREFIX + SAN_SUFFIX;
          return EmptyId;
        }
        return Found(id);
      }
    }
    r := NotFound;
  }

  /** The names that are searched for. */
  lemma {:induction false} SanOfCluster(id: string)
    ensures SAN_PREFIX + id + SAN_SUFFIX == "hcp-kubernetes." + id + ".svc.cluster.local"
    ensures Matches(SAN_PREFIX + id + SAN_SUFFIX)
  {
    var san := SAN_PREFIX + id + SAN_SUFFIX;
    assert san[..|SAN_PREFIX|] == SAN_PREFIX && san[|san| - |SAN_SUFFIX|..] == SAN_SUFFIX;
  }

  ghost predicate FirstMatching(sans: seq<string>, i: nat) {
    i < |sans| && Matches(sans[i]) && forall j :: 0 <= j < i ==> !Matches(sans[j])
  }

  lemma {:induction false} Sliced(san: string)
    requires Matches(san) && |SAN_PREFIX| <= |san| - |SAN_SUFFIX|
    ensures san == SAN_PREFIX + san[|SAN_PREFIX|..|san| - |SAN_SUFFIX|] + SAN_SUFFIX
  {
    assert san == san[..|SAN_PREFIX|] + san[|SAN_PREFIX|..|san| - |SAN_SUFFIX|] + san[|san| - |SAN_SUFFIX|..];
  }

  /** Of all names with the prefix and the suffix, exactly one is too short to hold both: the one in
      which they share their dot. */
  lemma {:induction false} CrossedIffOverlap(san: string)
    ensures Matches(san) && |san| - |SAN_SUFFIX| < |SAN_PREFIX| <==> san == OVERLAP
  {
    OverlapCrosses();
    if Matches(san) && |san| - |SAN_SUFFIX| < |SAN_PREFIX| {
      SuffixStartsWithDot();
      Crossed(san, SAN_PREFIX, SAN_SUFFIX);
      OnlyDot(|san| - |SAN_SUFFIX|);
      JoinedAtDot();
    }
  }

  lemma {:induction false} SuffixStartsWithDot()
    ensures |SAN_SUFFIX| > 0 && SAN_SUFFIX[0] == '.'
  {
  }

  lemma {:induction false} OverlapCrosses()
    ensures Matches(OVERLAP) && |OVERLAP| - |SAN_SUFFIX| < |SAN_PREFIX|
  {
  }

  /** Prefix and suffix that cross agree on what they share. */
  lemma {:induction false} Crossed(san: string, p: string, s: string)
    requires HasPrefix(san, p) && HasSuffix(san, s) && |san| < |p| + |s| && |s| > 0
    ensures p[|san| - |s|] == s[0] && san == p[..|san| - |s|] + s
  {
    var k := |san| - |s|;
    assert san[k] == san[k..][0] && san[k] == san[..|p|][k];
    assert san[..k] == san[..|p|][..k];
  }

  lemma {:induction false} JoinedAtDot()
    ensures SAN_PREFIX[..14] + SAN_SUFFIX == OVERLAP
  {
  }

  lemma {:induction false} OnlyDot(k: nat)
    requires k < |SAN_PREFIX| && SAN_PREFIX[k] == '.'
    ensures k == 14
  {
  }
}
