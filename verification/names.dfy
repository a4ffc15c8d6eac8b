/** Domain names as the plugin spells them: trimming, ASCII case folding, the trailing dot,
    and the two notions of "inside the zone" (byte suffix and label suffix). */
module Names {

  datatype Option<+T> = None | Some(value: T)

  predicate IsSpace(c: char) {
    c == ' ' || c == '\t' || c == '\n' || c == '\r' || c == '\U{000B}' || c == '\U{000C}'
  }

  function LowerChar(c: char): char {
    if 'A' <= c <= 'Z' then (c as int + 32) as char else c
  }

  function UpperChar(c: char): char {
    if 'a' <= c <= 'z' then (c as int - 32) as char else c
  }

  function Lower(s: string): string {
    if s == "" then "" else Lower(s[..|s| - 1]) + [LowerChar(s[|s| - 1])]
  }

  function Upper(s: string): string {
    if s == "" then "" else Upper(s[..|s| - 1]) + [UpperChar(s[|s| - 1])]
  }

  const CAPITALS: string := "ABCDEFGHIJKLMNOPQRSTUVWXYZ"
  const SMALL: string := "abcdefghijklmnopqrstuvwxyz"

  /** Case folding pairs the letters of the two alphabets and leaves every other character. */
  lemma LetterCases(i: nat)
    requires i < 26
    ensures |CAPITALS| == |SMALL| == 26
    ensures LowerChar(CAPITALS[i]) == SMALL[i] && UpperChar(SMALL[i]) == CAPITALS[i]
    ensures forall c | c !in CAPITALS :: LowerChar(c) == c
    ensures forall c | c !in SMALL :: UpperChar(c) == c
  {
    LetterAt(i);
    forall c: char | 'A' <= c <= 'Z'
      ensures c in CAPITALS
    {
      LetterAt(c as int - 65);
    }
    forall c: char | 'a' <= c <= 'z'
      ensures c in SMALL
    {
      LetterAt(c as int - 97);
    }
  }

  lemma LetterAt(i: nat)
    requires i < 26
    ensures |CAPITALS| == |SMALL| == 26
    ensures CAPITALS[i] as int == 65 + i && SMALL[i] as int == 97 + i
  {
  }

  lemma {:induction false} LowerEach(s: string)
    ensures |Lower(s)| == |s|
    ensures forall i | 0 <= i < |s| :: Lower(s)[i] == LowerChar(s[i])
  {
    if s != "" {
      LowerEach(s[..|s| - 1]);
    }
  }

  lemma {:induction false} UpperEach(s: string)
    ensures |Upper(s)| == |s|
    ensures forall i | 0 <= i < |s| :: Upper(s)[i] == UpperChar(s[i])
  {
    if s != "" {
      UpperEach(s[..|s| - 1]);
    }
  }

  /** A string without capitals is its own lower case. */
  lemma LowerFixpoint(s: string)
    requires forall i | 0 <= i < |s| :: !('A' <= s[i] <= 'Z')
    ensures Lower(s) == s
  {
    LowerEach(s);
  }

  lemma {:induction false} UpperFixpoint(s: string)
    requires forall i | 0 <= i < |s| :: !('a' <= s[i] <= 'z')
    ensures Upper(s) == s
  {
    if s != "" {
      UpperFixpoint(s[..|s| - 1]);
      assert s == s[..|s| - 1] + [s[|s| - 1]];
    }
  }

  function TrimLeft(s: string): string {
    if s != "" && IsSpace(s[0]) then TrimLeft(s[1..]) else s
  }

  function TrimRight(s: string): string {
    if s != "" && IsSpace(s[|s| - 1]) then TrimRight(s[..|s| - 1]) else s
  }

  /** Trimming on the left leaves a suffix that does not start with white space; what went was
      white space. */
  lemma {:induction false} TrimLeftSplits(s: string)
    ensures var t := TrimLeft(s);
      && |t| <= |s| && t == s[|s| - |t|..]
      && (forall i | 0 <= i < |s| - |t| :: IsSpace(s[i]))
      && (t != "" ==> !IsSpace(t[0]))
  {
    if s != "" && IsSpace(s[0]) {
      TrimLeftSplits(s[1..]);
      var t := TrimLeft(s);
      assert forall i | 0 < i < |s| - |t| :: s[i] == s[1..][i - 1];
    }
  }

  lemma {:induction false} TrimRightSplits(s: string)
    ensures var t := TrimRight(s);
      && |t| <= |s| && t == s[..|t|]
      && (forall i | |t| <= i < |s| :: IsSpace(s[i]))
      && (t != "" ==> !IsSpace(t[|t| - 1]))
  {
    if s != "" && IsSpace(s[|s| - 1]) {
      TrimRightSplits(s[..|s| - 1]);
    }
  }

  function TrimSpace(s: string): string {
    TrimRight(TrimLeft(s))
  }

  predicate HasSuffix(s: string, suffix: string) {
    |suffix| <= |s| && s[|s| - |suffix|..] == suffix
  }

  /** Fully qualified: the name ends in a dot. */
  predicate Fqdn(s: string) {
    s != "" && s[|s| - 1] == '.'
  }

  /** The final dot, if there is one, is dropped. */
  function TrimDot(s: string): string {
    if Fqdn(s) then s[..|s| - 1] else s
  }

  function NormalizeDomain(domain: string): string {
    var normalized := Lower(TrimSpace(domain));
    if Fqdn(normalized) then normalized else normalized + "."
  }

  /** The canonical spelling, stated without reference to how it is reached. */
  predicate Normal(s: string) {
    && Fqdn(s)
    && !IsSpace(s[0])
    && forall i | 0 <= i < |s| :: !('A' <= s[i] <= 'Z')
  }

  /** Neither end is white space. */
  predicate Trimmed(s: string) {
    s != "" ==> !IsSpace(s[0]) && !IsSpace(s[|s| - 1])
  }

  lemma TrimSpaceTrims(s: string)
    ensures Trimmed(TrimSpace(s))
    ensures Trimmed(s) <==> TrimSpace(s) == s
  {
    var l := TrimLeft(s);
    var t := TrimRight(l);
    TrimLeftSplits(s);
    TrimRightSplits(l);
    if t != "" {
      assert t[0] == l[0];
    }
  }

  lemma {:induction false} TrimLeftOf(lead: string, rest: string)
    requires forall i | 0 <= i < |lead| :: IsSpace(lead[i])
    ensures TrimLeft(lead + rest) == TrimLeft(rest)
  {
    if lead == "" {
      assert lead + rest == rest;
    } else {
      TrimLeftOf(lead[1..], rest);
      assert (lead + rest)[1..] == lead[1..] + rest;
    }
  }

  lemma {:induction false} TrimRightOf(rest: string, trail: string)
    requires forall i | 0 <= i < |trail| :: IsSpace(trail[i])
    ensures TrimRight(rest + trail) == TrimRight(rest)
  {
    if trail == "" {
      assert rest + trail == rest;
    } else {
      TrimRightOf(rest, trail[..|trail| - 1]);
      assert (rest + trail)[..|rest + trail| - 1] == rest + trail[..|trail| - 1];
    }
  }

  /** What normalising any spelling gives: surrounding white space goes, letters become small, and
      the final dot is there. Every string is such a spelling of some trimmed body. */
  lemma NormalizeSpelling(lead: string, body: string, trail: string)
    requires forall i | 0 <= i < |lead| :: IsSpace(lead[i])
    requires forall i | 0 <= i < |trail| :: IsSpace(trail[i])
    requires Trimmed(body) && body != ""
    ensures var d := NormalizeDomain(lead + body + trail);
      && |d| == (if body[|body| - 1] == '.' then |body| else |body| + 1)
      && (forall i | 0 <= i < |body| :: d[i] == LowerChar(body[i]))
      && d[|d| - 1] == '.'
  {
    assert lead + body + trail == lead + (body + trail);
    TrimLeftOf(lead, body + trail);
    assert (body + trail)[0] == body[0];
    assert TrimLeft(body + trail) == body + trail;
    TrimRightOf(body, trail);
    assert TrimRight(body) == body;
    LowerEach(body);
  }

  /** A blank name is the root. */
  lemma NormalizeBlank(s: string)
    requires forall i | 0 <= i < |s| :: IsSpace(s[i])
    ensures NormalizeDomain(s) == "."
  {
    TrimLeftOf(s, "");
    assert s + "" == s;
  }

  lemma NormalizeIsNormal(s: string)
    ensures Normal(NormalizeDomain(s))
  {
    var t := TrimSpace(s);
    TrimSpaceTrims(s);
    LowerEach(t);
  }

  lemma NormalizeOfNormal(s: string)
    requires Normal(s)
    ensures NormalizeDomain(s) == s
  {
    TrimSpaceTrims(s);
    LowerFixpoint(s);
  }

  /** A name is left alone exactly when it is already in canonical spelling. */
  lemma NormalizeFixpoint(s: string)
    ensures NormalizeDomain(s) == s <==> Normal(s)
  {
    NormalizeIsNormal(s);
    if Normal(s) {
      NormalizeOfNormal(s);
    }
  }

  lemma NormalizeIdempotent(s: string)
    ensures NormalizeDomain(NormalizeDomain(s)) == NormalizeDomain(s)
  {
    NormalizeIsNormal(s);
    NormalizeOfNormal(NormalizeDomain(s));
  }

  /** What dumping and reloading a name does: dropping the final dot loses the name exactly when
      the character before that dot is itself a dot or white space. */
  lemma NameRecovery(s: string)
    requires Normal(s)
    ensures NormalizeDomain(TrimDot(s)) == s
            <==> (|s| == 1 || !(s[|s| - 2] == '.' || IsSpace(s[|s| - 2])))
  {
    var e := s[..|s| - 1];
    assert s == e + ".";
    if |s| > 1 {
      var last := s[|s| - 2];
      assert e[|e| - 1] == last;
      TrimSpaceTrims(e);
      if IsSpace(last) {
        TrimShortens(e);
        LowerEach(TrimSpace(e));
      } else {
        LowerFixpoint(e);
      }
    }
  }

  lemma TrimShortens(s: string)
    requires s != "" && IsSpace(s[|s| - 1])
    ensures |TrimSpace(s)| < |s|
  {
    TrimLeftSplits(s);
    TrimRightSplits(TrimLeft(s));
    assert TrimLeft(s) != "" ==> TrimLeft(s)[|TrimLeft(s)| - 1] == s[|s| - 1];
  }

  /** A usable zone: canonical, with a last label that is neither empty nor ends in white space. */
  predicate WellFormedZone(zone: string) {
    && Normal(zone)
    && |zone| >= 2
    && zone[|zone| - 2] != '.'
    && !IsSpace(zone[|zone| - 2])
  }

  lemma NameRecoveryInZone(zone: string, s: string)
    requires WellFormedZone(zone) && Normal(s) && HasSuffix(s, zone)
    ensures NormalizeDomain(TrimDot(s)) == s
  {
    assert s[|s| - 2] == s[|s| - |zone|..][|zone| - 2];
    NameRecovery(s);
  }

  /* ---------- labels ---------- */

  /** Each dot ends a label. */
  function Split(s: string): seq<string> {
    if s == "" then []
    else
      var rest := Split(s[1..]);
      if s[0] == '.' then [""] + rest
      else if rest == [] then [[s[0]]]
      else [[s[0]] + rest[0]] + rest[1..]
  }

  function Join(labels: seq<string>): string {
    if labels == [] then "" else labels[0] + "." + Join(labels[1..])
  }

  /** The labels of a name, the root having none. */
  function Labels(s: string): seq<string> {
    if s == "." then [] else Split(s)
  }

  /** The gate in front of a query: the name's last labels are the zone's labels. */
  predicate InZone(zone: string, name: string) {
    && Fqdn(name)
    && var z, n := Labels(zone), Labels(name);
      |z| <= |n| && n[|n| - |z|..] == z
  }

  lemma {:induction false} JoinSplit(s: string)
    requires s == "" || Fqdn(s)
    ensures Join(Split(s)) == s
    ensures s != "" ==> Split(s) != []
  {
    if s != "" {
      JoinSplit(s[1..]);
      var rest := Split(s[1..]);
      assert s == [s[0]] + s[1..];
      if s[0] == '.' {
        assert ([""] + rest)[1..] == rest;
      } else {
        assert ([[s[0]] + rest[0]] + rest[1..])[1..] == rest[1..];
        assert Join(Split(s)) == ([s[0]] + rest[0]) + "." + Join(rest[1..]);
      }
    }
  }

  lemma {:induction false} JoinAppend(a: seq<string>, b: seq<string>)
    ensures Join(a + b) == Join(a) + Join(b)
  {
    if a == [] {
      assert a + b == b;
    } else {
      var x, y, first := Join(a[1..]), Join(b), a[0] + ".";
      JoinAppend(a[1..], b);
      assert (a + b)[1..] == a[1..] + b;
      assert Join(a + b) == first + (x + y);
      assert first + (x + y) == (first + x) + y;
    }
  }

  lemma {:induction false} SplitAppend(a: string, b: string)
    requires a == "" || Fqdn(a)
    ensures Split(a + b) == Split(a) + Split(b)
  {
    if a == "" {
      assert a + b == b;
    } else {
      SplitAppend(a[1..], b);
      assert (a + b)[1..] == a[1..] + b;
      if a[0] != '.' {
        JoinSplit(a[1..]);
      }
    }
  }

  lemma BoundarySuffix(p: string, zone: string)
    requires Fqdn(p)
    ensures HasSuffix(p + zone, "." + zone)
  {
    assert p == p[..|p| - 1] + ".";
    assert p + zone == p[..|p| - 1] + ("." + zone);
  }

  lemma InZoneHasBoundary(zone: string, name: string)
    requires Fqdn(zone) && zone != "." && InZone(zone, name)
    ensures name == zone || HasSuffix(name, "." + zone)
  {
    var z, n := Labels(zone), Labels(name);
    JoinSplit(zone);
    assert z != [];
    JoinSplit(name);
    var head := n[..|n| - |z|];
    JoinAppend(head, z);
    assert n == head + z;
    assert name == Join(head) + zone;
    if head != [] {
      JoinEndsInDot(head);
      BoundarySuffix(Join(head), zone);
    }
  }

  lemma BoundaryIsInZone(zone: string, name: string)
    requires Fqdn(zone) && HasSuffix(name, "." + zone)
    ensures InZone(zone, name)
  {
    var head := name[..|name| - |zone| - 1];
    assert name == head + ("." + zone) == (head + ".") + zone;
    SplitAppend(head + ".", zone);
    var a, z := Split(head + "."), Split(zone);
    assert (a + z)[|a|..] == z;
    if zone != "." {
      assert Labels(name) == a + z;
    }
  }

  /** The label test in terms of characters: the suffix has to start at a label boundary. */
  lemma InZoneIffBoundary(zone: string, name: string)
    requires Fqdn(zone) && Fqdn(name)
    ensures InZone(zone, name) <==> (zone == "." || name == zone || HasSuffix(name, "." + zone))
  {
    if zone != "." && InZone(zone, name) {
      InZoneHasBoundary(zone, name);
    }
    if HasSuffix(name, "." + zone) {
      BoundaryIsInZone(zone, name);
    }
  }

  lemma {:induction false} JoinEndsInDot(labels: seq<string>)
    requires labels != []
    ensures Fqdn(Join(labels))
  {
    if |labels| > 1 {
      JoinEndsInDot(labels[1..]);
    } else {
      assert Join(labels[1..]) == "";
    }
  }

  /** No name the query gate lets through is lost to the cache's byte-suffix admission. */
  lemma InZoneIsAdmitted(zone: string, name: string)
    requires Fqdn(zone) && InZone(zone, name)
    ensures HasSuffix(name, zone)
  {
    InZoneIffBoundary(zone, name);
    if zone == "." {
      assert name[|name| - 1..] == ".";
    } else if HasSuffix(name, "." + zone) {
      assert name[|name| - |zone|..] == name[|name| - |zone| - 1..][1..];
    }
  }

  /** The admission is wider than the gate: an admitted name fails the gate exactly when
      the zone starts in the middle of one of its labels. */
  lemma AdmittedButOutside(zone: string, name: string)
    requires Fqdn(zone) && zone != "." && Fqdn(name) && HasSuffix(name, zone)
    ensures !InZone(zone, name) <==> (|name| > |zone| && name[|name| - |zone| - 1] != '.')
  {
    InZoneIffBoundary(zone, name);
    if |name| > |zone| {
      assert name[|name| - |zone| - 1..] == [name[|name| - |zone| - 1]] + name[|name| - |zone|..];
    }
  }

  /** Trimming stops at the dot in front of the zone. */
  lemma TrimKeepsBoundary(zone: string, q: string)
    requires Fqdn(zone) && HasSuffix(q, "." + zone)
    ensures HasSuffix(TrimSpace(q), "." + zone)
  {
    var cut := |q| - |zone| - 1;
    assert q[cut] == q[cut..][0];
    assert q[|q| - 1] == q[cut..][|zone|];
    var t := TrimLeft(q);
    TrimLeftSplits(q);
    assert |q| - |t| <= cut;
    assert t[|t| - |zone| - 1..] == q[cut..];
    assert t[|t| - 1] == q[|q| - 1];
    assert TrimRight(t) == t;
  }

  lemma LowerOfSlice(s: string, lo: nat, hi: nat)
    requires lo <= hi <= |Lower(s)|
    ensures Lower(Lower(s)[lo..hi]) == Lower(s)[lo..hi]
  {
    LowerEach(s);
    var u := Lower(s)[lo..hi];
    forall i | 0 <= i < |u|
      ensures !('A' <= u[i] <= 'Z')
    {
      assert u[i] == LowerChar(s[lo + i]);
    }
    LowerFixpoint(u);
  }

  lemma TrimIsSlice(s: string) returns (lo: nat, hi: nat)
    ensures lo <= hi <= |s| && TrimSpace(s) == s[lo..hi]
  {
    var t := TrimLeft(s);
    TrimLeftSplits(s);
    TrimRightSplits(t);
    lo := |s| - |t|;
    hi := lo + |TrimRight(t)|;
    assert t == s[lo..];
    assert TrimRight(t) == t[..hi - lo];
  }

  lemma TrimOfLower(s: string)
    ensures Lower(TrimSpace(Lower(s))) == TrimSpace(Lower(s))
  {
    var lo, hi := TrimIsSlice(Lower(s));
    LowerOfSlice(s, lo, hi);
  }

  /** Normalising a query name that passed the gate keeps it inside the zone. */
  lemma GateSurvivesNormalize(zone: string, name: string)
    requires Normal(zone) && InZone(zone, Lower(name))
    ensures InZone(zone, NormalizeDomain(Lower(name)))
  {
    var q := Lower(name);
    var d := NormalizeDomain(q);
    NormalizeIsNormal(q);
    InZoneIffBoundary(zone, q);
    InZoneIffBoundary(zone, d);
    if zone != "." {
      if q == zone {
        NormalizeOfNormal(q);
      } else {
        TrimKeepsBoundary(zone, q);
        TrimOfLower(name);
        var t := TrimSpace(q);
        assert t[|t| - 1] == t[|t| - |zone| - 1..][|zone|];
        assert d == t;
      }
    }
  }
}
