// What the scan takes for words, character by character.
module MnemonicWords {
  import opened Wrappers
  import opened WalletTypes
  import opened MnemonicScan

  // The code points with the White_Space property.
  const WHITE_SPACE := {
    0x09, 0x0a, 0x0b, 0x0c, 0x0d, 0x20, 0x85, 0xa0, 0x1680, 0x2000, 0x2001, 0x2002, 0x2003, 0x2004, 0x2005, 0x2006,
    0x2007, 0x2008, 0x2009, 0x200a, 0x2028, 0x2029, 0x202f, 0x205f, 0x3000}

  lemma WhitespaceExactly(c: char)
    ensures IsWhitespace(c) <==> c as int in WHITE_SPACE
  {
  }

  // s[a..b] is a maximal run of other characters.
  ghost predicate IsRun(s: string, a: nat, b: nat) {
    && a < b <= |s|
    && (forall i | a <= i < b :: s[i] as int !in WHITE_SPACE)
    && (a > 0 ==> s[a - 1] as int in WHITE_SPACE)
    && (b < |s| ==> s[b] as int in WHITE_SPACE)
  }

  ghost predicate IsWordAt(s: string, w: string, a: nat) {
    IsRun(s, a, a + |w|) && s[a..a + |w|] == w
  }

  ghost predicate AllFound(s: string, starts: seq<nat>) {
    forall a: nat, b: nat | IsRun(s, a, b) :: a in starts
  }

  // The words are the maximal runs, in order, and all of them.
  ghost predicate AreRuns(s: string, words: seq<string>, starts: seq<nat>) {
    && |starts| == |words|
    && (forall k | 0 < k < |starts| :: starts[k - 1] < starts[k])
    && (forall k | 0 <= k < |words| :: IsWordAt(s, words[k], starts[k]))
    && AllFound(s, starts)
  }

  function Shifted(starts: seq<nat>, n: nat): (r: seq<nat>)
    ensures |r| == |starts| && forall k | 0 <= k < |r| :: r[k] == starts[k] + n
  {
    seq(|starts|, k requires 0 <= k < |starts| => starts[k] + n)
  }

  // Runs of what follows a cut between two of them.
  lemma RunsAfter(s: string, n: nat, a: nat, b: nat)
    requires n <= a && n <= |s| && (n > 0 && a == n ==> s[n - 1] as int in WHITE_SPACE)
    requires n <= b
    ensures IsRun(s[n..], a - n, b - n) ==> IsRun(s, a, b)
    ensures IsRun(s, a, b) ==> IsRun(s[n..], a - n, b - n)
  {
    assert forall i | n <= i < |s| :: s[i] == s[n..][i - n];
    if IsRun(s[n..], a - n, b - n) {
      forall i | a <= i < b ensures s[i] as int !in WHITE_SPACE {
        assert s[n..][i - n] as int !in WHITE_SPACE;
      }
    }
  }

  lemma {:induction false} WordsAreRuns(s: string) returns (starts: seq<nat>)
    ensures AreRuns(s, Words(s), starts)
    decreases |s|
  {
    hide IsWhitespace, IsRun;
    starts := [];
    if s == "" {
      NoRuns();
    } else if IsWhitespace(s[0]) {
      WhitespaceExactly(s[0]);
      var rest := WordsAreRuns(s[1..]);
      starts := Shifted(rest, 1);
      SpaceFirst(s, Words(s[1..]), rest);
    } else {
      var n := RunLength(s);
      var rest := WordsAreRuns(s[n..]);
      starts := [0] + Shifted(rest, n);
      RunFirst(s, Words(s[n..]), rest);
    }
  }

  lemma NoRuns()
    ensures AllFound("", [])
  {
  }

  lemma RunBounds(s: string, a: nat, b: nat)
    requires IsRun(s, a, b)
    ensures a < b <= |s| && s[a] as int !in WHITE_SPACE
    ensures forall i | a <= i < b :: s[i] as int !in WHITE_SPACE
    ensures (a > 0 ==> s[a - 1] as int in WHITE_SPACE) && (b < |s| ==> s[b] as int in WHITE_SPACE)
  {
  }

  lemma SliceAfter(s: string, n: nat, a: nat, b: nat)
    requires n <= |s| && a <= b <= |s| - n
    ensures s[n..][a..b] == s[n + a..n + b]
  {
  }

  // A word of what follows a cut is a word of the whole.
  lemma WordAfter(s: string, n: nat, w: string, a: nat)
    requires n <= |s| && IsWordAt(s[n..], w, a)
    requires a == 0 && n > 0 ==> s[n - 1] as int in WHITE_SPACE
    ensures IsWordAt(s, w, n + a)
  {
    hide IsRun;
    RunBounds(s[n..], a, a + |w|);
    RunsAfter(s, n, n + a, n + a + |w|);
    SliceAfter(s, n, a, a + |w|);
  }

  lemma SpaceFirst(s: string, words: seq<string>, rest: seq<nat>)
    requires s != "" && s[0] as int in WHITE_SPACE && AreRuns(s[1..], words, rest)
    ensures AreRuns(s, words, Shifted(rest, 1))
  {
    hide IsRun, IsWordAt, AllFound;
    var starts := Shifted(rest, 1);
    forall k | 0 <= k < |words| ensures IsWordAt(s, words[k], starts[k]) {
      WordAfter(s, 1, words[k], rest[k]);
    }
    SpaceFinds(s, rest);
  }

  lemma SpaceFinds(s: string, rest: seq<nat>)
    requires s != "" && s[0] as int in WHITE_SPACE && AllFound(s[1..], rest)
    ensures AllFound(s, Shifted(rest, 1))
  {
    hide IsRun;
    forall a: nat, b: nat | IsRun(s, a, b) ensures a in Shifted(rest, 1) {
      RunBounds(s, a, b);
      RunsAfter(s, 1, a, b);
      var k :| 0 <= k < |rest| && rest[k] == a - 1;
      assert Shifted(rest, 1)[k] == a;
    }
  }

  lemma RunFirst(s: string, words: seq<string>, rest: seq<nat>)
    requires s != "" && !IsWhitespace(s[0]) && RunLength(s) > 0 && AreRuns(s[RunLength(s)..], words, rest)
    ensures AreRuns(s, [s[..RunLength(s)]] + words, [0] + Shifted(rest, RunLength(s)))
  {
    hide IsRun, IsWhitespace, RunLength, IsWordAt, AllFound;
    var n := RunLength(s);
    var starts, all := [0] + Shifted(rest, n), [s[..n]] + words;
    FirstRun(s);
    forall k | 0 < k < |all| ensures IsWordAt(s, all[k], starts[k]) && starts[k] > n {
      LaterWord(s, n, words[k - 1], rest[k - 1]);
    }
    RunFinds(s, n, rest);
  }

  lemma RunFinds(s: string, n: nat, rest: seq<nat>)
    requires 0 < n <= |s| && (forall i | 0 <= i < n :: s[i] as int !in WHITE_SPACE)
    requires n < |s| ==> s[n] as int in WHITE_SPACE
    requires AllFound(s[n..], rest)
    ensures AllFound(s, [0] + Shifted(rest, n))
  {
    hide IsRun;
    var starts := [0] + Shifted(rest, n);
    forall a: nat, b: nat | IsRun(s, a, b) ensures a in starts {
      if a > 0 {
        RunBounds(s, a, b);
        FoundRun(s, n, a, b);
        var k :| 0 <= k < |rest| && rest[k] == a - n;
        assert starts[k + 1] == a;
      } else {
        assert starts[0] == 0;
      }
    }
  }

  lemma FirstRun(s: string)
    requires s != "" && !IsWhitespace(s[0]) && RunLength(s) > 0
    ensures IsWordAt(s, s[..RunLength(s)], 0)
    ensures forall i | 0 <= i < RunLength(s) :: s[i] as int !in WHITE_SPACE
    ensures RunLength(s) < |s| ==> s[RunLength(s)] as int in WHITE_SPACE
  {
    hide IsWhitespace, RunLength;
    forall i | 0 <= i < |s| ensures IsWhitespace(s[i]) <==> s[i] as int in WHITE_SPACE {
      WhitespaceExactly(s[i]);
    }
  }

  // A word after white space at n starts beyond it.
  lemma LaterWord(s: string, n: nat, w: string, a: nat)
    requires n <= |s| && (n < |s| ==> s[n] as int in WHITE_SPACE) && IsWordAt(s[n..], w, a)
    ensures a > 0 && IsWordAt(s, w, n + a)
  {
    hide IsRun;
    RunBounds(s[n..], a, a + |w|);
    WordAfter(s, n, w, a);
  }

  // And no run that starts after 0 starts within the first one.
  lemma FoundRun(s: string, n: nat, a: nat, b: nat)
    requires 0 < n <= |s| && 0 < a && IsRun(s, a, b) && (forall i | 0 <= i < n :: s[i] as int !in WHITE_SPACE)
    requires n < |s| ==> s[n] as int in WHITE_SPACE
    ensures a > n && IsRun(s[n..], a - n, b - n)
  {
    hide IsRun;
    RunBounds(s, a, b);
    RunsAfter(s, n, a, b);
  }

  // ----- what is accepted, and what comes out

  lemma AcceptableExactly(words: seq<string>)
    ensures Acceptable(words) <==>
      && |words| <= 24
      && forall i | 0 <= i < |words| :: |words[i]| <= 8 && forall j | 0 <= j < |words[i]| :: 97 <= words[i][j] as int <= 122
  {
  }

  lemma {:induction false} JoinedFirst(w: string, words: seq<string>)
    ensures Joined([]) == "" && Joined([w]) == w
    ensures words != [] ==> Joined([w] + words) == w + [0x20 as char] + Joined(words)
  {
    if |words| == 1 {
      assert ([w] + words)[..1] == [w];
    } else if words != [] {
      var front := words[..|words| - 1];
      JoinedFirst(w, front);
      assert ([w] + words)[..|words|] == [w] + front;
    }
  }
}
