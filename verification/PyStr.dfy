/**
 The Python string primitives the path code is written with (`find`, `split`, `join`, `strip`),
 each with the laws that the parser and printer proofs rest on.
 */
module PyStr {

  ghost predicate MatchesAt(s: string, sub: string, i: int) {
    0 <= i <= |s| - |sub| && s[i..i + |sub|] == sub
  }

  predicate Free(s: string, banned: set<char>) {
    forall i | 0 <= i < |s| :: s[i] !in banned
  }

  // ---------------------------------------------------------------- find

  function FindFrom(s: string, sub: string, from: nat): (r: int)
    requires from <= |s|
    ensures r == -1 ==> forall j :: from <= j ==> !MatchesAt(s, sub, j)
    ensures r != -1 ==> from <= r && MatchesAt(s, sub, r)
    ensures r != -1 ==> forall j :: from <= j < r ==> !MatchesAt(s, sub, j)
    decreases |s| - from
  {
    if from + |sub| <= |s| && s[from..from + |sub|] == sub then from
    else if from == |s| then -1
    else FindFrom(s, sub, from + 1)
  }

  /** `s.find(sub)`: the leftmost position where `sub` occurs, or -1. */
  function Find(s: string, sub: string): (r: int)
    ensures r == -1 <==> forall j :: !MatchesAt(s, sub, j)
    ensures r != -1 ==> MatchesAt(s, sub, r) && forall j :: j < r ==> !MatchesAt(s, sub, j)
  {
    FindFrom(s, sub, 0)
  }

  lemma MatchHead(s: string, sub: string)
    requires sub != ""
    ensures forall j :: MatchesAt(s, sub, j) ==> s[j] == sub[0]
  {
    forall j | MatchesAt(s, sub, j) ensures s[j] == sub[0] {
      assert s[j..j + |sub|][0] == s[j];
    }
  }

  lemma MatchLast(s: string, sub: string)
    requires sub != ""
    ensures forall j :: MatchesAt(s, sub, j) ==> s[j + |sub| - 1] == sub[|sub| - 1]
  {
    forall j | MatchesAt(s, sub, j) ensures s[j + |sub| - 1] == sub[|sub| - 1] {
      assert s[j..j + |sub|][|sub| - 1] == s[j + |sub| - 1];
    }
  }

  /** A separator cannot start inside text that avoids the separator's first character. */
  lemma FindAfter(a: string, sub: string, b: string)
    requires sub != "" && sub[0] !in a
    ensures Find(a + sub + b, sub) == |a|
  {
    var s := a + sub + b;
    assert s[|a|..|a| + |sub|] == sub;
    assert MatchesAt(s, sub, |a|);
    MatchHead(s, sub);
    assert forall j | 0 <= j < |a| :: s[j] == a[j];
  }

  lemma FindNone(s: string, sub: string)
    requires sub != "" && sub[0] !in s
    ensures Find(s, sub) == -1
  {
    MatchHead(s, sub);
  }

  lemma FindChar(s: string, c: char)
    ensures (Find(s, [c]) == -1) <==> c !in s
    ensures c in s ==> 0 <= Find(s, [c]) < |s| && s[Find(s, [c])] == c && c !in s[..Find(s, [c])]
  {
    if c in s {
      var i :| 0 <= i < |s| && s[i] == c;
      assert MatchesAt(s, [c], i);
      var f := Find(s, [c]);
      assert s[f] == s[f..f + 1][0];
      forall j | 0 <= j < f ensures s[..f][j] != c {
        assert !MatchesAt(s, [c], j);
        assert s[j..j + 1] == [s[j]];
      }
    } else {
      FindNone(s, [c]);
    }
  }

  /** Appending text never moves the first occurrence of a character already present. */
  lemma FindCharStable(a: string, c: char, b: string)
    requires c in a
    ensures Find(a + b, [c]) == Find(a, [c])
  {
    FindChar(a, c);
    FindChar(a + b, c);
    var f := Find(a, [c]);
    assert (a + b)[f] == c && (a + b)[f..f + 1] == [c];
    assert MatchesAt(a + b, [c], f);
    var g := Find(a + b, [c]);
    assert a[g..g + 1] == (a + b)[g..g + 1];
  }

  // ---------------------------------------------------------------- split and join

  /** `s.split(sep)` for a nonempty separator: leftmost, non-overlapping cuts. */
  function SplitOn(s: string, sep: string): (parts: seq<string>)
    requires sep != ""
    ensures parts != []
    decreases |s|
  {
    var i := Find(s, sep);
    if i == -1 then [s] else [s[..i]] + SplitOn(s[i + |sep|..], sep)
  }

  /** `sep.join(parts)`. */
  function Join(parts: seq<string>, sep: string): string {
    if parts == [] then ""
    else if |parts| == 1 then parts[0]
    else parts[0] + sep + Join(parts[1..], sep)
  }

  lemma JoinCons(part: string, parts: seq<string>, sep: string)
    requires parts != []
    ensures Join([part] + parts, sep) == part + sep + Join(parts, sep)
  {
    assert ([part] + parts)[1..] == parts;
  }

  lemma CutAt(s: string, sep: string, i: int)
    requires MatchesAt(s, sep, i)
    ensures s == s[..i] + sep + s[i + |sep|..]
  {
  }

  /** Splitting loses nothing. */
  lemma {:induction false} JoinSplit(s: string, sep: string)
    requires sep != ""
    ensures Join(SplitOn(s, sep), sep) == s
    decreases |s|
  {
    var i := Find(s, sep);
    if i != -1 {
      var rest := s[i + |sep|..];
      JoinSplit(rest, sep);
      JoinCons(s[..i], SplitOn(rest, sep), sep);
      CutAt(s, sep, i);
    }
  }

  lemma MatchInPrefix(s: string, sep: string, i: nat, j: int)
    requires i <= |s| && MatchesAt(s[..i], sep, j)
    ensures MatchesAt(s, sep, j)
  {
    assert s[..i][j..j + |sep|] == s[j..j + |sep|];
  }

  /** And it cuts at every separator: none is left inside a part. */
  lemma {:induction false} SplitLeavesNone(s: string, sep: string)
    requires sep != ""
    ensures forall i | 0 <= i < |SplitOn(s, sep)| :: Find(SplitOn(s, sep)[i], sep) == -1
    decreases |s|
  {
    var i := Find(s, sep);
    if i != -1 {
      SplitLeavesNone(s[i + |sep|..], sep);
      forall j ensures !MatchesAt(s[..i], sep, j) {
        if MatchesAt(s[..i], sep, j) {
          MatchInPrefix(s, sep, i, j);
        }
      }
    }
  }

  /** Joining and splitting again gives the parts back when no part can start a separator. */
  lemma {:induction false} SplitJoin(parts: seq<string>, sep: string)
    requires sep != "" && parts != []
    requires forall i | 0 <= i < |parts| :: sep[0] !in parts[i]
    ensures SplitOn(Join(parts, sep), sep) == parts
  {
    if |parts| == 1 {
      FindNone(parts[0], sep);
    } else {
      var rest := Join(parts[1..], sep);
      FindAfter(parts[0], sep, rest);
      SplitJoin(parts[1..], sep);
      var s := parts[0] + sep + rest;
      assert s[..|parts[0]|] == parts[0];
      assert s[|parts[0]| + |sep|..] == rest;
    }
  }

  /** The first cut of `a` is also the first cut of `a + [c] + b`. */
  lemma FirstCut(a: string, c: char, b: string)
    requires c in a
    ensures var i := Find(a, [c]); var s := a + [c] + b;
      0 <= i < |a| && Find(s, [c]) == i && s[..i] == a[..i] && s[i + 1..] == a[i + 1..] + [c] + b
  {
    FindChar(a, c);
    assert a + [c] + b == a + ([c] + b);
    FindCharStable(a, c, [c] + b);
  }

  /** Splitting at a character is a homomorphism over that character. */
  lemma {:induction false} SplitAppend(a: string, c: char, b: string)
    ensures SplitOn(a + [c] + b, [c]) == SplitOn(a, [c]) + SplitOn(b, [c])
    decreases |a|
  {
    var s := a + [c] + b;
    if c !in a {
      FindAfter(a, [c], b);
      FindNone(a, [c]);
      assert s[..|a|] == a && s[|a| + 1..] == b;
    } else {
      FirstCut(a, c, b);
      SplitAppend(a[Find(a, [c]) + 1..], c, b);
    }
  }

  lemma {:induction false} JoinFree(parts: seq<string>, sep: string, banned: set<char>)
    requires forall i | 0 <= i < |parts| :: Free(parts[i], banned)
    requires Free(sep, banned)
    ensures Free(Join(parts, sep), banned)
  {
    if |parts| > 1 {
      JoinFree(parts[1..], sep, banned);
    }
  }

  /** Text put in front of the first part can be moved in front of the joined text. */
  lemma JoinPrepend(pre: string, parts: seq<string>, sep: string)
    requires parts != []
    ensures Join([pre + parts[0]] + parts[1..], sep) == pre + Join(parts, sep)
  {
    var moved := [pre + parts[0]] + parts[1..];
    if |parts| > 1 {
      assert moved[1..] == parts[1..];
      assert pre + parts[0] + sep + Join(parts[1..], sep)
          == pre + (parts[0] + sep + Join(parts[1..], sep));
    }
  }

  // ---------------------------------------------------------------- strip

  function LStrip(s: string, cs: set<char>): (r: string)
    ensures r == "" || r[0] !in cs
  {
    if s != "" && s[0] in cs then LStrip(s[1..], cs) else s
  }

  function RStrip(s: string, cs: set<char>): (r: string)
    ensures r == "" || r[|r| - 1] !in cs
    ensures r <= s
  {
    if s != "" && s[|s| - 1] in cs then RStrip(s[..|s| - 1], cs) else s
  }

  /** `s.strip(cs)`: drop every leading and every trailing character of the set. */
  function Strip(s: string, cs: set<char>): (r: string)
    ensures r == "" || (r[0] !in cs && r[|r| - 1] !in cs)
  {
    RStrip(LStrip(s, cs), cs)
  }

  lemma {:induction false} LStripPrefix(l: string, m: string, cs: set<char>)
    requires forall i | 0 <= i < |l| :: l[i] in cs
    requires m == "" || m[0] !in cs
    ensures LStrip(l + m, cs) == m
  {
    if l == "" {
      assert l + m == m;
    } else {
      assert (l + m)[1..] == l[1..] + m;
      LStripPrefix(l[1..], m, cs);
    }
  }

  lemma {:induction false} RStripSuffix(m: string, r: string, cs: set<char>)
    requires forall i | 0 <= i < |r| :: r[i] in cs
    requires m == "" || m[|m| - 1] !in cs
    ensures RStrip(m + r, cs) == m
    decreases |r|
  {
    if r == "" {
      assert m + r == m;
    } else {
      assert (m + r)[..|m + r| - 1] == m + r[..|r| - 1];
      RStripSuffix(m, r[..|r| - 1], cs);
    }
  }

  /** `strip` returns exactly the core between two runs of strippable characters. */
  lemma StripCore(l: string, m: string, r: string, cs: set<char>)
    requires forall i | 0 <= i < |l| :: l[i] in cs
    requires forall i | 0 <= i < |r| :: r[i] in cs
    requires m != "" && m[0] !in cs && m[|m| - 1] !in cs
    ensures Strip(l + m + r, cs) == m
  {
    assert l + m + r == l + (m + r);
    LStripPrefix(l, m + r, cs);
    RStripSuffix(m, r, cs);
  }
}
