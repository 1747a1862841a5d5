/**
 * The two pure pieces of `src/extension.ts`: the object id read from a path the `.git/objects`
 * watcher reports, and the name of the branch a resurrected commit is checked out on.
 */
module Extension {
  import opened Wrappers
  import opened Strings

  // ---------------------------------------------------------------- the object path pattern

  /** ASCII case folding, the only folding the `i` flag does for these characters. */
  function AsciiLower(c: char): char {
    if 'A' <= c <= 'Z' then (c as int + 32) as char else c
  }

  /** `[\/\\]`. */
  predicate IsSeparator(c: char) {
    c == '/' || c == '\\'
  }

  /** `[0-9a-f]` under the `i` flag. */
  predicate IsHexAnyCase(c: char) {
    '0' <= c <= '9' || 'a' <= c <= 'f' || 'A' <= c <= 'F'
  }

  predicate AllHexAnyCase(s: string) {
    forall k :: 0 <= k < |s| ==> IsHexAnyCase(s[k])
  }

  const Objects := "objects"

  /** The length of a match: `objects`, a separator, 2 hex digits, a separator, 38 hex digits. */
  const MatchLength := 49

  /** `objects[\/\\]([0-9a-f]{2})[\/\\]`, case-insensitively, at `p`: the fan-out directory. */
  predicate FanOutAt(s: string, p: nat)
    requires p + 11 <= |s|
  {
    && (forall k :: 0 <= k < |Objects| ==> AsciiLower(s[p + k]) == Objects[k])
    && IsSeparator(s[p + 7]) && AllHexAnyCase(s[p + 8..p + 10]) && IsSeparator(s[p + 10])
  }

  /** `objects[\/\\]([0-9a-f]{2})[\/\\]([0-9a-f]{38})`, case-insensitively, starting at `p`. */
  predicate MatchesAt(s: string, p: nat) {
    p + MatchLength <= |s| && FanOutAt(s, p) && AllHexAnyCase(s[p + 11..p + MatchLength])
  }

  /** The unanchored search: the first position at or after `from` where the pattern matches. */
  function FirstMatch(s: string, from: nat): (r: Option<nat>)
    ensures r.Some? ==> from <= r.value && r.value + MatchLength <= |s|
    decreases |s| - from
  {
    if from + MatchLength > |s| then None
    else if MatchesAt(s, from) then Some(from)
    else FirstMatch(s, from + 1)
  }

  /** The oid `match[1] + match[2]`: the fan-out directory then the file name, or `None`. */
  function OidFromPath(path: string): Option<string> {
    match FirstMatch(path, 0)
    case None => None
    case Some(p) => Some(path[p + 8..p + 10] + path[p + 11..p + MatchLength])
  }

  /** The search finds the leftmost match, and finds none exactly when there is none. */
  lemma {:induction false} FirstMatchFacts(s: string, from: nat)
    ensures FirstMatch(s, from).Some? ==> MatchesAt(s, FirstMatch(s, from).value)
    ensures FirstMatch(s, from).Some? ==> forall q :: from <= q < FirstMatch(s, from).value ==> !MatchesAt(s, q)
    ensures FirstMatch(s, from).None? <==> forall q :: from <= q ==> !MatchesAt(s, q)
    decreases |s| - from
  {
    if from + MatchLength <= |s| && !MatchesAt(s, from) {
      FirstMatchFacts(s, from + 1);
    }
  }

  /**
   * An extracted oid has 40 hex characters, in the case they have in the path: the two after
   * `objects` and a separator, then the 38 after the next separator, at the leftmost match.
   */
  lemma OidShape(path: string)
    ensures OidFromPath(path).Some? ==>
      var p, oid := FirstMatch(path, 0).value, OidFromPath(path).value;
      && |oid| == 40 && AllHexAnyCase(oid)
      && MatchesAt(path, p) && oid[..2] == path[p + 8..p + 10] && oid[2..] == path[p + 11..p + 49]
  {
    FirstMatchFacts(path, 0);
    if OidFromPath(path).Some? {
      var p, oid := FirstMatch(path, 0).value, OidFromPath(path).value;
      assert forall k :: 0 <= k < 40 ==> oid[k] == if k < 2 then path[p + 8 + k] else path[p + 9 + k];
    }
  }

  /** No oid is taken from a path in which the pattern matches nowhere. */
  lemma OidNone(path: string)
    ensures OidFromPath(path).None? <==> forall q :: 0 <= q ==> !MatchesAt(path, q)
  {
    FirstMatchFacts(path, 0);
  }

  /**
   * Either separator, in either position, and hex digits of either case: the oid of
   * `…objects/ab/<38 hex>…` is `ab` followed by the 38 characters, as written.
   */
  lemma OidAt(prefix: string, sep1: char, dir: string, sep2: char, name: string, rest: string)
    requires IsSeparator(sep1) && IsSeparator(sep2)
    requires |dir| == 2 && AllHexAnyCase(dir) && |name| == 38 && AllHexAnyCase(name)
    requires forall q :: 0 <= q < |prefix| ==> !MatchesAt(prefix + Objects + [sep1] + dir + [sep2] + name + rest, q)
    ensures OidFromPath(prefix + Objects + [sep1] + dir + [sep2] + name + rest) == Some(dir + name)
  {
    var s := prefix + Objects + [sep1] + dir + [sep2] + name + rest;
    var p := |prefix|;
    assert s[p..p + 7] == Objects && s[p + 7] == sep1 && s[p + 8..p + 10] == dir;
    assert s[p + 10] == sep2 && s[p + 11..p + 49] == name;
    assert forall k :: 0 <= k < |Objects| ==> s[p + k] == Objects[k];
    assert MatchesAt(s, p);
    FirstMatchFacts(s, 0);
  }

  /**
   * A temporary object file written before its rename (`tmp_obj_…`) has no 38 hex characters
   * after the fan-out directory: a path in which every fan-out directory is followed by such a
   * file yields no oid.
   */
  lemma TemporaryObjectIgnored(path: string)
    requires forall q :: 0 <= q && q + 19 <= |path| && FanOutAt(path, q) ==> path[q + 11..q + 19] == "tmp_obj_"
    ensures OidFromPath(path) == None
  {
    forall q | 0 <= q
      ensures !MatchesAt(path, q)
    {
      if q + MatchLength <= |path| && FanOutAt(path, q) {
        assert path[q + 11] == path[q + 11..q + 19][0] == 't';
        assert path[q + 11..q + MatchLength][0] == path[q + 11];
      }
    }
    OidNone(path);
  }

  // ---------------------------------------------------------------- the recovery branch

  /**
   * The branch name of the resurrect command: `recovered-`, the first 7 characters of the oid,
   * `-`, and the clock's milliseconds `nowMs` as whole seconds.
   */
  function RecoveryBranchName(oid: string, nowMs: nat): string {
    "recovered-" + SubstringTo(oid, 7) + "-" + NatToDecimal(nowMs / 1000)
  }

  /** The name is laid out as prefix, short oid, dash and the decimal digits of the seconds. */
  lemma BranchNameLayout(oid: string, nowMs: nat)
    ensures var name, k := RecoveryBranchName(oid, nowMs), |SubstringTo(oid, 7)|;
      && name[..10] == "recovered-" && name[10..10 + k] == SubstringTo(oid, 7) && name[10 + k] == '-'
      && AllDigits(name[11 + k..]) && DigitsValue(name[11 + k..]) == nowMs / 1000
      && (|oid| >= 7 ==> name[10..17] == oid[..7])
  {
    var name, short, secs := RecoveryBranchName(oid, nowMs), SubstringTo(oid, 7), NatToDecimal(nowMs / 1000);
    var k := |short|;
    assert name == "recovered-" + short + "-" + secs;
    assert name[11 + k..] == secs;
    DecimalRoundTrip(nowMs / 1000);
  }

  /**
   * The name determines the short oid and the second: two resurrections get the same branch
   * name only for the same short oid in the same second. The seconds are digits, so the last
   * `-` of the name separates the two, even when the short oid holds a dash itself.
   */
  lemma BranchNameInjective(oid1: string, ms1: nat, oid2: string, ms2: nat)
    requires RecoveryBranchName(oid1, ms1) == RecoveryBranchName(oid2, ms2)
    ensures SubstringTo(oid1, 7) == SubstringTo(oid2, 7) && ms1 / 1000 == ms2 / 1000
  {
    var name := RecoveryBranchName(oid1, ms1);
    var s1, s2 := SubstringTo(oid1, 7), SubstringTo(oid2, 7);
    var d1, d2 := NatToDecimal(ms1 / 1000), NatToDecimal(ms2 / 1000);
    var x := name[10..];
    assert x == s1 + "-" + d1 && x == s2 + "-" + d2;
    LastDash(x, s1, d1);
    LastDash(x, s2, d2);
    assert |s1| == |s2|;
    assert s1 == x[..|s1|] == s2;
    assert d1 == x[|s1| + 1..] == d2;
    DecimalRoundTrip(ms1 / 1000);
    DecimalRoundTrip(ms2 / 1000);
  }

  /** In `s + "-" + d` with `d` all digits, the dash after `s` is the last one. */
  lemma LastDash(x: string, s: string, d: string)
    requires x == s + "-" + d && AllDigits(d)
    ensures |s| < |x| && x[|s|] == '-'
    ensures forall j :: |s| < j < |x| ==> x[j] != '-'
  {
    forall j | |s| < j < |x|
      ensures x[j] != '-'
    {
      assert x[j] == d[j - |s| - 1];
    }
  }
}
