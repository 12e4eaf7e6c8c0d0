/** Matching of a host name against the names of a certificate. */
module HostnameMatch {
  import opened Text

  function ToLower(s: string): string {
    seq(|s|, i requires 0 <= i < |s| => if 'A' <= s[i] <= 'Z' then (s[i] as int + 32) as char else s[i])
  }

  const CAPITALS := "ABCDEFGHIJKLMNOPQRSTUVWXYZ"
  const SMALL := "abcdefghijklmnopqrstuvwxyz"

  /** Capital letters become the small ones in their place; everything else stays. */
  lemma {:induction false} ToLowerMeaning(s: string, i: nat)
    requires i < |s|
    ensures |ToLower(s)| == |s|
    ensures forall k :: 0 <= k < 26 && s[i] == CAPITALS[k] ==> ToLower(s)[i] == SMALL[k]
    ensures s[i] !in CAPITALS ==> ToLower(s)[i] == s[i]
  {
    assert forall k :: 0 <= k < 26 ==> CAPITALS[k] as int == 'A' as int + k && SMALL[k] as int == 'a' as int + k;
    if 'A' <= s[i] <= 'Z' {
      assert s[i] == CAPITALS[s[i] as int - 'A' as int];
    }
  }

  function TrimDots(s: string): string {
    if s != "" && s[|s| - 1] == '.' then TrimDots(s[..|s| - 1]) else s
  }

  function Normal(s: string): string {
    TrimDots(ToLower(s))
  }

  /** All dots at the end go, and nothing else. */
  lemma {:induction false} TrimDotsMeaning(s: string)
    ensures TrimDots(s) <= s && forall i :: |TrimDots(s)| <= i < |s| ==> s[i] == '.'
    ensures TrimDots(s) != "" ==> TrimDots(s)[|TrimDots(s)| - 1] != '.'
  {
    if s != "" && s[|s| - 1] == '.' {
      TrimDotsMeaning(s[..|s| - 1]);
    }
  }

  predicate EndsWith(s: string, suffix: string) {
    |suffix| <= |s| && s[|s| - |suffix|..] == suffix
  }

  predicate StartsWith(s: string, prefix: string) {
    |prefix| <= |s| && s[..|prefix|] == prefix
  }

  /** The test made on the text of one (normalised) pattern. */
  predicate TextMatch(host: string, pattern: string) {
    if StartsWith(pattern, "*.") then
      var suffix := pattern[1..];
      EndsWith(host, suffix) && '.' !in host[..|host| - |suffix|]
    else host == pattern
  }

  // ----- the rule on labels

  function Labels(name: string): seq<string> {
    Split(name, '.')
  }

  /** Section 6.4.3 of RFC 6125: a wildcard that is the complete left-most label stands for exactly one
      label; everything else must be equal label by label. */
  predicate LabelMatch(host: seq<string>, pattern: seq<string>)
    requires |host| >= 1 && |pattern| >= 1
  {
    if pattern[0] == "*" && |pattern| >= 2 then host[1..] == pattern[1..] else host == pattern
  }

  lemma {:induction false} StarLabel(s: string)
    ensures Labels("*." + s) == ["*"] + Labels(s)
  {
    SplitSolid("*", '.');
    SplitConcat("*", s, '.');
    assert "*" + ['.'] + s == "*." + s;
  }

  lemma {:induction false} StarFirst(pattern: string)
    ensures Labels(pattern)[0] == "*" && |Labels(pattern)| >= 2 ==> StartsWith(pattern, "*.")
  {
    JoinSplit(pattern, '.');
    if Labels(pattern)[0] == "*" && |Labels(pattern)| >= 2 {
      assert pattern == "*" + ['.'] + Join(Labels(pattern)[1..], '.');
      assert pattern[..2] == "*.";
    }
  }

  /** The text test for `*.s` holds exactly when the host name is one label followed by the labels of `s`. */
  lemma {:induction false} WildcardIsOneLabel(host: string, s: string)
    ensures TextMatch(host, "*." + s) <==> Labels(host)[1..] == Labels(s)
  {
    var pattern, suffix := "*." + s, ['.'] + s;
    assert pattern[1..] == suffix;
    assert StartsWith(pattern, "*.") by {
      assert pattern[..2] == "*.";
    }
    if TextMatch(host, pattern) {
      var first := host[..|host| - |suffix|];
      assert host == first + ['.'] + s;
      SplitSolid(first, '.');
      SplitConcat(first, s, '.');
    }
    if Labels(host)[1..] == Labels(s) {
      var first := Labels(host)[0];
      PiecesAreSolid(host, '.', 0);
      SplitSolid(first, '.');
      SplitConcat(first, s, '.');
      assert Labels(host) == [first] + Labels(s);
      SplitInjective(host, first + ['.'] + s, '.');
      assert host[|host| - |suffix|..] == suffix;
      assert host[..|host| - |suffix|] == first;
    }
  }

  /** Text test and label rule agree on every host name and every pattern. */
  lemma {:induction false} TextMatchIsLabelMatch(host: string, pattern: string)
    ensures TextMatch(host, pattern) <==> LabelMatch(Labels(host), Labels(pattern))
  {
    if StartsWith(pattern, "*.") {
      var s := pattern[2..];
      assert pattern == "*." + s;
      StarLabel(s);
      WildcardIsOneLabel(host, s);
    } else {
      StarFirst(pattern);
      if Labels(host) == Labels(pattern) {
        SplitInjective(host, pattern, '.');
      }
    }
  }

  /** The host name is accepted exactly when it matches an alternative name label by label, or equals
      the common name. */
  method HostnameMatches(hostname: string, sans: seq<string>, subjectCn: string) returns (matches: bool)
    ensures matches <==>
              (exists i :: 0 <= i < |sans| && LabelMatch(Labels(Normal(hostname)), Labels(Normal(sans[i]))))
              || Normal(hostname) == Normal(subjectCn)
  {
    var host := Normal(hostname);
    for i := 0 to |sans|
      invariant forall j :: 0 <= j < i ==> !LabelMatch(Labels(host), Labels(Normal(sans[j])))
    {
      var pattern := Normal(sans[i]);
      TextMatchIsLabelMatch(host, pattern);
      if StartsWith(pattern, "*.") {
        var suffix := pattern[1..];
        if EndsWith(host, suffix) && '.' !in host[..|host| - |suffix|] {
          return true;
        }
      } else if host == pattern {
        return true;
      }
    }
    matches := host == Normal(subjectCn);
  }
}
