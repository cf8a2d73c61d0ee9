/**
 * What `spell_check` in spellhell.c computes, stated as pure functions: the
 * C string held in the literal's bytes, its maximal runs of letters, the runs
 * that pass the word-buffer guard, and the words the dictionary rejects.
 */
module Words {
  import opened Ascii

  /** Size of the scratch buffer `buf` that receives each word. */
  const BufSize: nat := 32

  /** Longest run that fits in `buf` together with its terminating zero. */
  const MaxWord: nat := BufSize - 1

  /** Index of the first zero byte: the length of the C string. */
  function FirstZero(s: seq<byte>): (z: nat)
    requires 0 in s
    ensures z < |s| && s[z] == 0
    ensures forall i :: 0 <= i < z ==> s[i] != 0
  {
    if s[0] == 0 then 0
    else
      assert 0 in s[1..] by {
        var j :| 0 <= j < |s| && s[j] == 0;
        assert s[1..][j - 1] == 0;
      }
      1 + FirstZero(s[1..])
  }

  /** The C string a literal holds: its bytes before the first zero. */
  function Text(s: seq<byte>): (t: seq<byte>)
    requires 0 in s
    ensures 0 !in t && t <= s && s[|t|] == 0
  {
    s[..FirstZero(s)]
  }

  /** A span of the text: `len` bytes starting at index `start`. */
  datatype Span = Span(start: nat, len: nat)

  /** Every span lies inside t. */
  ghost predicate Inside(t: seq<byte>, r: seq<Span>) {
    forall j :: 0 <= j < |r| ==> r[j].start + r[j].len <= |t|
  }

  /** Every span is non-empty and starts at index i or later. */
  ghost predicate NonEmptyFrom(r: seq<Span>, i: nat) {
    forall j :: 0 <= j < |r| ==> i <= r[j].start && 0 < r[j].len
  }

  /** Where the run of letters that starts at index i ends. */
  function LetterRunEnd(t: seq<byte>, i: nat): (e: nat)
    requires i <= |t|
    ensures i <= e <= |t| && AllLetters(t, i, e)
    ensures e == |t| || !IsAlpha(t[e])
    decreases |t| - i
  {
    if i < |t| && IsAlpha(t[i]) then LetterRunEnd(t, i + 1) else i
  }

  /** The runs of letters of t from index i on, left to right: non-letters
      are skipped one at a time, and each run is taken whole. */
  function RunsFrom(t: seq<byte>, i: nat): (r: seq<Span>)
    requires i <= |t|
    ensures Inside(t, r) && NonEmptyFrom(r, i)
    decreases |t| - i
  {
    if i == |t| then []
    else if !IsAlpha(t[i]) then RunsFrom(t, i + 1)
    else
      var e := LetterRunEnd(t, i);
      [Span(i, e - i)] + RunsFrom(t, e)
  }

  /** All runs of letters of t. */
  function Runs(t: seq<byte>): seq<Span> {
    RunsFrom(t, 0)
  }

  /** The bytes of t from a up to b are all letters. */
  ghost predicate AllLetters(t: seq<byte>, a: nat, b: nat)
    requires a <= b <= |t|
  {
    forall k :: a <= k < b ==> IsAlpha(t[k])
  }

  /** A span is a run of letters of t that extends neither left nor right. */
  ghost predicate IsMaximalRun(t: seq<byte>, sp: Span) {
    && 0 < sp.len && sp.start + sp.len <= |t|
    && AllLetters(t, sp.start, sp.start + sp.len)
    && (sp.start == 0 || !IsAlpha(t[sp.start - 1]))
    && (sp.start + sp.len == |t| || !IsAlpha(t[sp.start + sp.len]))
  }

  /** Each span of r is a maximal run starting at i or later. */
  ghost predicate MaximalFrom(t: seq<byte>, i: nat, r: seq<Span>) {
    forall j :: 0 <= j < |r| ==> IsMaximalRun(t, r[j]) && i <= r[j].start
  }

  /** The spans of r go strictly left to right, with a gap between any two. */
  ghost predicate Ordered(r: seq<Span>) {
    forall j, j' :: 0 <= j < j' < |r| ==> r[j].start + r[j].len < r[j'].start
  }

  /** Index k lies in some span of r. */
  ghost predicate Covered(r: seq<Span>, k: nat) {
    exists j :: 0 <= j < |r| && r[j].start <= k < r[j].start + r[j].len
  }

  /** Every letter of t from index i on lies in some span of r. */
  ghost predicate CoversLetters(t: seq<byte>, i: nat, r: seq<Span>) {
    forall k {:trigger Covered(r, k)} :: i <= k < |t| && IsAlpha(t[k]) ==> Covered(r, k)
  }

  /** r lists maximal runs of t that start at i or later, strictly left to
      right, and every letter of t from i on lies in one of them. */
  ghost predicate MaximalRunsFrom(t: seq<byte>, i: nat, r: seq<Span>) {
    MaximalFrom(t, i, r) && Ordered(r) && CoversLetters(t, i, r)
  }

  /** r is the list of all maximal runs of letters of t, in order. */
  ghost predicate MaximalRuns(t: seq<byte>, r: seq<Span>) {
    MaximalRunsFrom(t, 0, r)
  }

  /** Index i is not strictly inside a run of letters. */
  ghost predicate AtBoundary(t: seq<byte>, i: nat)
    requires i <= |t|
  {
    i == 0 || i == |t| || !IsAlpha(t[i - 1]) || !IsAlpha(t[i])
  }

  /** A run of letters ending where a non-letter (or the end) follows is the
      one LetterRunEnd finds. */
  lemma {:induction false} LetterRunEndAt(t: seq<byte>, i: nat, e: nat)
    requires i <= e <= |t|
    requires AllLetters(t, i, e)
    requires e == |t| || !IsAlpha(t[e])
    ensures LetterRunEnd(t, i) == e
    decreases e - i
  {
    if i < e {
      LetterRunEndAt(t, i + 1, e);
    }
  }

  /** Putting a maximal run in front of maximal runs that begin after it
      keeps the list maximal, ordered and covering. */
  lemma ConsMaximalRun(t: seq<byte>, i: nat, e: nat, rest: seq<Span>)
    requires i < e <= |t|
    requires IsMaximalRun(t, Span(i, e - i))
    requires MaximalRunsFrom(t, e, rest)
    ensures MaximalRunsFrom(t, i, [Span(i, e - i)] + rest)
  {
    forall j | 0 <= j < |rest|
      ensures e < rest[j].start
    {
      assert IsMaximalRun(t, rest[j]);
    }
    ConsMaximalFrom(t, i, e, rest);
    ConsOrdered(Span(i, e - i), rest);
    ConsCovers(t, i, e, rest);
  }

  /** The spans of a list headed by a maximal run, followed by maximal runs
      from e on, are maximal runs from i on. */
  lemma ConsMaximalFrom(t: seq<byte>, i: nat, e: nat, rest: seq<Span>)
    requires i < e && IsMaximalRun(t, Span(i, e - i)) && MaximalFrom(t, e, rest)
    ensures MaximalFrom(t, i, [Span(i, e - i)] + rest)
  {
    var r := [Span(i, e - i)] + rest;
    forall j | 0 <= j < |r|
      ensures IsMaximalRun(t, r[j]) && i <= r[j].start
    {
      if j > 0 {
        assert r[j] == rest[j - 1];
      }
    }
  }

  /** A span that ends before every span of an ordered list can go in front
      of it. */
  lemma ConsOrdered(sp: Span, rest: seq<Span>)
    requires Ordered(rest)
    requires forall j :: 0 <= j < |rest| ==> sp.start + sp.len < rest[j].start
    ensures Ordered([sp] + rest)
  {
    var r := [sp] + rest;
    forall j, j' | 0 <= j < j' < |r|
      ensures r[j].start + r[j].len < r[j'].start
    {
      assert r[j'] == rest[j' - 1];
      if j > 0 {
        assert r[j] == rest[j - 1];
      }
    }
  }

  /** The letters before e lie in the head run, the others in the rest. */
  lemma ConsCovers(t: seq<byte>, i: nat, e: nat, rest: seq<Span>)
    requires i < e && CoversLetters(t, e, rest)
    ensures CoversLetters(t, i, [Span(i, e - i)] + rest)
  {
    var r := [Span(i, e - i)] + rest;
    forall k | i <= k < |t| && IsAlpha(t[k])
      ensures Covered(r, k)
    {
      if k < e {
        assert r[0].start <= k < r[0].start + r[0].len;
      } else {
        assert Covered(rest, k);
        var j :| 0 <= j < |rest| && rest[j].start <= k < rest[j].start + rest[j].len;
        assert r[j + 1] == rest[j];
      }
    }
  }

  /** A non-letter at i lies in no run, so a maximal list from i + 1 is one
      from i. */
  lemma ExtendOverNonLetter(t: seq<byte>, i: nat, r: seq<Span>)
    requires i < |t| && !IsAlpha(t[i])
    requires MaximalRunsFrom(t, i + 1, r)
    ensures MaximalRunsFrom(t, i, r)
  {
    assert CoversLetters(t, i, r) by {
      forall k | i <= k < |t| && IsAlpha(t[k])
        ensures Covered(r, k)
      {
        assert k != i;
      }
    }
  }

  /** From a boundary on, RunsFrom lists exactly the maximal runs. */
  lemma {:induction false} RunsFromAreMaximal(t: seq<byte>, i: nat)
    requires i <= |t| && AtBoundary(t, i)
    ensures MaximalRunsFrom(t, i, RunsFrom(t, i))
    decreases |t| - i
  {
    if i == |t| {
      assert RunsFrom(t, i) == [];
    } else if !IsAlpha(t[i]) {
      RunsFromAreMaximal(t, i + 1);
      assert RunsFrom(t, i) == RunsFrom(t, i + 1);
      ExtendOverNonLetter(t, i, RunsFrom(t, i + 1));
    } else {
      var e := LetterRunEnd(t, i);
      RunsFromAreMaximal(t, e);
      assert RunsFrom(t, i) == [Span(i, e - i)] + RunsFrom(t, e);
      ConsMaximalRun(t, i, e, RunsFrom(t, e));
    }
  }

  /** In a maximal, ordered, covering list, the run holding the first letter
      from i on is the first span. */
  lemma FirstSpanStartsAt(t: seq<byte>, i: nat, r: seq<Span>)
    requires i < |t| && IsAlpha(t[i])
    requires MaximalRunsFrom(t, i, r)
    ensures r != [] && r[0].start == i
  {
    assert Covered(r, i);
    var j :| 0 <= j < |r| && r[j].start <= i < r[j].start + r[j].len;
    assert i <= r[j].start;
  }

  /** Dropping the first run of a maximal list leaves a maximal list for
      the text after that run. */
  lemma TailMaximalRuns(t: seq<byte>, i: nat, r: seq<Span>)
    requires r != [] && MaximalRunsFrom(t, i, r)
    ensures MaximalRunsFrom(t, r[0].start + r[0].len, r[1..])
  {
    var e := r[0].start + r[0].len;
    var rest := r[1..];
    assert MaximalFrom(t, e, rest) by {
      forall j | 0 <= j < |rest|
        ensures IsMaximalRun(t, rest[j]) && e <= rest[j].start
      {
        assert rest[j] == r[j + 1];
      }
    }
    assert Ordered(rest) by {
      forall j, j' | 0 <= j < j' < |rest|
        ensures rest[j].start + rest[j].len < rest[j'].start
      {
        assert rest[j] == r[j + 1] && rest[j'] == r[j' + 1];
      }
    }
    assert CoversLetters(t, e, rest) by {
      forall k | e <= k < |t| && IsAlpha(t[k])
        ensures Covered(rest, k)
      {
        assert Covered(r, k);
        var j :| 0 <= j < |r| && r[j].start <= k < r[j].start + r[j].len;
        assert j != 0;
        assert rest[j - 1] == r[j];
      }
    }
  }

  /** No run starts at a non-letter, so a maximal list from i is one from i + 1. */
  lemma SkipNonLetter(t: seq<byte>, i: nat, r: seq<Span>)
    requires i < |t| && !IsAlpha(t[i])
    requires MaximalRunsFrom(t, i, r)
    ensures MaximalRunsFrom(t, i + 1, r)
  {
    forall j | 0 <= j < |r|
      ensures i + 1 <= r[j].start
    {
      assert IsMaximalRun(t, r[j]);
      assert AllLetters(t, r[j].start, r[j].start + r[j].len);
    }
  }

  /** A maximal list from a letter at i starts with the run LetterRunEnd
      finds, and goes on with a maximal list from the end of that run. */
  lemma SplitFirstRun(t: seq<byte>, i: nat, r: seq<Span>)
    requires i < |t| && IsAlpha(t[i])
    requires MaximalRunsFrom(t, i, r)
    ensures r != [] && r[0] == Span(i, LetterRunEnd(t, i) - i)
    ensures MaximalRunsFrom(t, LetterRunEnd(t, i), r[1..])
  {
    FirstSpanStartsAt(t, i, r);
    var e := r[0].start + r[0].len;
    assert IsMaximalRun(t, r[0]);
    LetterRunEndAt(t, i, e);
    TailMaximalRuns(t, i, r);
  }

  /** Any list of maximal runs from i on that leaves no letter out is the
      one RunsFrom produces. */
  lemma {:induction false} MaximalRunsFromUnique(t: seq<byte>, i: nat, r: seq<Span>)
    requires i <= |t| && MaximalRunsFrom(t, i, r)
    ensures r == RunsFrom(t, i)
    decreases |t| - i
  {
    if i == |t| {
    } else if !IsAlpha(t[i]) {
      SkipNonLetter(t, i, r);
      MaximalRunsFromUnique(t, i + 1, r);
      assert RunsFrom(t, i) == RunsFrom(t, i + 1);
    } else {
      var e := LetterRunEnd(t, i);
      SplitFirstRun(t, i, r);
      MaximalRunsFromUnique(t, e, r[1..]);
      assert RunsFrom(t, i) == [Span(i, e - i)] + RunsFrom(t, e);
      assert r == [r[0]] + r[1..];
    }
  }

  /** Runs(t) is the one list of the maximal runs of letters of t, in order:
      no run is merged, split, repeated or left out. */
  lemma RunsAreMaximalRuns(t: seq<byte>, r: seq<Span>)
    ensures MaximalRuns(t, r) <==> r == Runs(t)
  {
    RunsFromAreMaximal(t, 0);
    if MaximalRuns(t, r) {
      MaximalRunsFromUnique(t, 0, r);
    }
  }

  /** A text has no runs exactly when it has no letters. */
  lemma NoRunsWithoutLetters(t: seq<byte>)
    ensures Runs(t) == [] <==> forall k :: 0 <= k < |t| ==> !IsAlpha(t[k])
  {
    RunsAreMaximalRuns(t, Runs(t));
    if forall k :: 0 <= k < |t| ==> !IsAlpha(t[k]) {
      RunsAreMaximalRuns(t, []);
    } else {
      var k :| 0 <= k < |t| && IsAlpha(t[k]);
      assert Covered(Runs(t), k);
    }
  }

  /** No span is longer than maxLen. */
  ghost predicate AllAtMost(r: seq<Span>, maxLen: nat) {
    forall j :: 0 <= j < |r| ==> r[j].len <= maxLen
  }

  /** The runs that reach the dictionary: the longest prefix of r whose runs
      are all at most maxLen long. The first longer run ends the scan. */
  function Admitted(r: seq<Span>, maxLen: nat): (p: seq<Span>)
    ensures p <= r && AllAtMost(p, maxLen)
    ensures |p| < |r| ==> r[|p|].len > maxLen
  {
    if r == [] || r[0].len > maxLen then []
    else [r[0]] + Admitted(r[1..], maxLen)
  }

  /** The runs of t that pass a guard abandoning the scan at the first run
      longer than maxLen. */
  function Checked(t: seq<byte>, maxLen: nat): (p: seq<Span>)
    ensures Inside(t, p)
    ensures p <= Runs(t) && AllAtMost(p, maxLen)
    ensures |p| < |Runs(t)| ==> Runs(t)[|p|].len > maxLen
  {
    Admitted(Runs(t), maxLen)
  }

  /** The bytes the spans cover. */
  function WordsOf(t: seq<byte>, r: seq<Span>): (ws: seq<seq<byte>>)
    requires Inside(t, r)
    ensures |ws| == |r|
  {
    if r == [] then []
    else [t[r[0].start .. r[0].start + r[0].len]] + WordsOf(t, r[1..])
  }

  /** The words of a span followed by more spans. */
  lemma WordsOfCons(t: seq<byte>, sp: Span, rest: seq<Span>)
    requires sp.start + sp.len <= |t| && Inside(t, rest)
    ensures Inside(t, [sp] + rest)
    ensures WordsOf(t, [sp] + rest) == [t[sp.start .. sp.start + sp.len]] + WordsOf(t, rest)
  {
    var a := [sp] + rest;
    forall j | 0 <= j < |a|
      ensures a[j].start + a[j].len <= |t|
    {
      if j > 0 {
        assert a[j] == rest[j - 1];
      }
    }
    assert a[0] == sp && a[1..] == rest;
  }

  /** The j-th word is the bytes of the j-th span. */
  lemma {:induction false} WordsOfAt(t: seq<byte>, r: seq<Span>, j: nat)
    requires Inside(t, r) && j < |r|
    ensures WordsOf(t, r)[j] == t[r[j].start .. r[j].start + r[j].len]
  {
    if j > 0 {
      WordsOfAt(t, r[1..], j - 1);
    }
  }

  /** The words the dictionary does not know, in their original order. */
  function Rejected(ws: seq<seq<byte>>, dict: iset<seq<byte>>): (out: seq<seq<byte>>)
    ensures |out| <= |ws|
    ensures forall k :: 0 <= k < |out| ==> out[k] !in dict
  {
    if ws == [] then []
    else (if ws[0] in dict then [] else [ws[0]]) + Rejected(ws[1..], dict)
  }

  /** A word is among the rejected ones exactly when it is one of the words
      and the dictionary does not know it. */
  lemma {:induction false} RejectedMembers(ws: seq<seq<byte>>, dict: iset<seq<byte>>, w: seq<byte>)
    ensures w in Rejected(ws, dict) <==> w in ws && w !in dict
  {
    if ws != [] {
      RejectedMembers(ws[1..], dict, w);
      assert w in ws <==> w == ws[0] || w in ws[1..];
    }
  }

  /** Rejecting words of a concatenation rejects each part in turn, so the
      order of the warnings is the order of the words. */
  lemma {:induction false} RejectedAppend(a: seq<seq<byte>>, b: seq<seq<byte>>, dict: iset<seq<byte>>)
    ensures Rejected(a + b, dict) == Rejected(a, dict) + Rejected(b, dict)
  {
    if a == [] {
      assert a + b == b;
    } else {
      var head := if a[0] in dict then [] else [a[0]];
      assert (a + b)[1..] == a[1..] + b;
      RejectedAppend(a[1..], b, dict);
      calc {
        Rejected(a + b, dict);
        head + Rejected(a[1..] + b, dict);
        head + (Rejected(a[1..], dict) + Rejected(b, dict));
        (head + Rejected(a[1..], dict)) + Rejected(b, dict);
        Rejected(a, dict) + Rejected(b, dict);
      }
    }
  }

  /** The words of the literal s that are checked against the dictionary. */
  function CheckedWords(s: seq<byte>): (ws: seq<seq<byte>>)
    requires 0 in s
    ensures |ws| == |Checked(Text(s), MaxWord)| <= |Runs(Text(s))|
  {
    WordsOf(Text(s), Checked(Text(s), MaxWord))
  }

  /** The words `spell_check` warns about for the literal s: the checked
      words the dictionary rejects, in order. */
  function Warnings(s: seq<byte>, dict: iset<seq<byte>>): (ws: seq<seq<byte>>)
    requires 0 in s
    ensures forall k :: 0 <= k < |ws| ==> ws[k] !in dict
  {
    Rejected(CheckedWords(s), dict)
  }

  /** A warning is issued for a word exactly when the word is checked and
      the dictionary rejects it. */
  lemma WarningsAreRejectedWords(s: seq<byte>, dict: iset<seq<byte>>, w: seq<byte>)
    requires 0 in s
    ensures w in Warnings(s, dict) <==> w in CheckedWords(s) && w !in dict
  {
    RejectedMembers(CheckedWords(s), dict, w);
  }

  /** Every checked word is a whole run of letters that fits in the buffer
      with its terminator. */
  lemma CheckedWordsAreShortRuns(s: seq<byte>, j: nat)
    requires 0 in s && j < |CheckedWords(s)|
    ensures var w := CheckedWords(s)[j];
      0 < |w| <= MaxWord && forall k :: 0 <= k < |w| ==> IsAlpha(w[k])
  {
    var t := Text(s);
    var r := Checked(t, MaxWord);
    RunsFromAreMaximal(t, 0);
    WordsOfAt(t, r, j);
    assert r[j] == Runs(t)[j];
    assert IsMaximalRun(t, r[j]);
    assert AllLetters(t, r[j].start, r[j].start + r[j].len);
  }

  /** The warnings still to come when the scan stands at index i of t. */
  function Pending(t: seq<byte>, i: nat, dict: iset<seq<byte>>): seq<seq<byte>>
    requires i <= |t|
  {
    Rejected(WordsOf(t, Admitted(RunsFrom(t, i), MaxWord)), dict)
  }

  /** One word step of the scan: the run at i is checked, then the scan
      resumes where the run ends. */
  lemma PendingWord(t: seq<byte>, i: nat, dict: iset<seq<byte>>)
    requires i < |t| && IsAlpha(t[i]) && LetterRunEnd(t, i) - i <= MaxWord
    ensures var e := LetterRunEnd(t, i);
      Pending(t, i, dict) == (if t[i..e] in dict then [] else [t[i..e]]) + Pending(t, e, dict)
  {
    var e := LetterRunEnd(t, i);
    var tail := RunsFrom(t, e);
    RunsFromWord(t, i);
    CheckedCons(t, i, e, tail, dict);
    PendingOf(t, i, [Span(i, e - i)] + tail, dict);
  }

  /** The warnings still due from i, given the runs from i. */
  lemma PendingOf(t: seq<byte>, i: nat, r: seq<Span>, dict: iset<seq<byte>>)
    requires i <= |t| && RunsFrom(t, i) == r
    ensures Inside(t, Admitted(r, MaxWord))
    ensures Pending(t, i, dict) == Rejected(WordsOf(t, Admitted(r, MaxWord)), dict)
  {
  }

  /** A run from i to e that fits the guard, followed by more spans: its
      word is checked first, then those of the rest. */
  lemma CheckedCons(t: seq<byte>, i: nat, e: nat, tail: seq<Span>, dict: iset<seq<byte>>)
    requires i <= e <= |t| && e - i <= MaxWord && Inside(t, tail)
    ensures Inside(t, Admitted([Span(i, e - i)] + tail, MaxWord))
    ensures Rejected(WordsOf(t, Admitted([Span(i, e - i)] + tail, MaxWord)), dict)
      == (if t[i..e] in dict then [] else [t[i..e]]) + Rejected(WordsOf(t, Admitted(tail, MaxWord)), dict)
  {
    var sp := Span(i, e - i);
    var rest := Admitted(tail, MaxWord);
    AdmittedCons(sp, tail, MaxWord);
    assert Inside(t, rest);
    WordsOfCons(t, sp, rest);
    assert t[sp.start .. sp.start + sp.len] == t[i..e];
    RejectedCons(t[i..e], WordsOf(t, rest), dict);
  }

  /** At a letter, the runs start with the run there. */
  lemma RunsFromWord(t: seq<byte>, i: nat)
    requires i < |t| && IsAlpha(t[i])
    ensures var e := LetterRunEnd(t, i);
      RunsFrom(t, i) == [Span(i, e - i)] + RunsFrom(t, e)
  {
  }

  /** A span that fits the guard is admitted, followed by what the guard
      admits of the rest. */
  lemma AdmittedCons(sp: Span, rest: seq<Span>, maxLen: nat)
    requires sp.len <= maxLen
    ensures Admitted([sp] + rest, maxLen) == [sp] + Admitted(rest, maxLen)
  {
    assert ([sp] + rest)[1..] == rest;
  }

  /** The first word is rejected or not, then the rest are. */
  lemma RejectedCons(w: seq<byte>, ws: seq<seq<byte>>, dict: iset<seq<byte>>)
    ensures Rejected([w] + ws, dict) == (if w in dict then [] else [w]) + Rejected(ws, dict)
  {
    assert ([w] + ws)[1..] == ws;
  }

  /** A non-letter adds nothing: the scan moves past it. */
  lemma PendingSkip(t: seq<byte>, i: nat, dict: iset<seq<byte>>)
    requires i < |t| && !IsAlpha(t[i])
    ensures Pending(t, i, dict) == Pending(t, i + 1, dict)
  {
    assert RunsFrom(t, i) == RunsFrom(t, i + 1);
  }

  /** Nothing is pending at the end of the text, nor once the run at i is
      too long for the buffer. */
  lemma PendingStop(t: seq<byte>, i: nat, dict: iset<seq<byte>>)
    requires i <= |t|
    requires i < |t| ==> IsAlpha(t[i]) && LetterRunEnd(t, i) - i > MaxWord
    ensures Pending(t, i, dict) == []
  {
  }

  /** A zero with no zero before it is the first zero. */
  lemma FirstZeroAt(b: seq<byte>, n: nat)
    requires n < |b| && b[n] == 0
    requires forall k :: 0 <= k < n ==> b[k] != 0
    ensures 0 in b && FirstZero(b) == n
  {
    assert b[n] in b;
  }

  /** A word of letters followed by a zero reads back, as a C string, as
      exactly that word. */
  lemma TerminatedWord(b: seq<byte>, n: nat)
    requires n < |b| && b[n] == 0
    requires forall k :: 0 <= k < n ==> IsAlpha(b[k])
    ensures 0 in b && FirstZero(b) == n
  {
    FirstZeroAt(b, n);
  }

  /** Before the scan starts, every warning is still to come. */
  lemma PendingAtStart(s: seq<byte>, dict: iset<seq<byte>>)
    requires 0 in s
    ensures Pending(Text(s), 0, dict) == Warnings(s, dict)
  {
  }

  /** The warnings from index i of the literal s on, in the order the scan
      meets them: stop at a zero byte, skip a non-letter, stop at a run too
      long for the buffer, otherwise check the run and go on after it. */
  function ScanFrom(s: seq<byte>, i: nat, dict: iset<seq<byte>>): (ws: seq<seq<byte>>)
    requires i <= |s|
    ensures forall k :: 0 <= k < |ws| ==> ws[k] !in dict
    ensures forall k :: 0 <= k < |ws| ==> 0 < |ws[k]| <= MaxWord
    decreases |s| - i
  {
    if i == |s| || s[i] == 0 then []
    else if !IsAlpha(s[i]) then ScanFrom(s, i + 1, dict)
    else
      var e := LetterRunEnd(s, i);
      if e - i > MaxWord then []
      else (if s[i..e] in dict then [] else [s[i..e]]) + ScanFrom(s, e, dict)
  }

  /** At a run that fits the buffer, the scan checks the run and goes on
      after it. */
  lemma ScanFromWord(s: seq<byte>, i: nat, dict: iset<seq<byte>>)
    requires i < |s| && IsAlpha(s[i]) && LetterRunEnd(s, i) - i <= MaxWord
    ensures var e := LetterRunEnd(s, i);
      ScanFrom(s, i, dict) == (if s[i..e] in dict then [] else [s[i..e]]) + ScanFrom(s, e, dict)
  {
    assert s[i] != 0;
  }

  /** On a text without zero bytes, the step-by-step scan produces exactly
      the warnings still pending. */
  lemma {:induction false} ScanFromIsPending(t: seq<byte>, i: nat, dict: iset<seq<byte>>)
    requires i <= |t| && 0 !in t
    ensures ScanFrom(t, i, dict) == Pending(t, i, dict)
    decreases |t| - i
  {
    if i == |t| {
      PendingStop(t, i, dict);
    } else if !IsAlpha(t[i]) {
      assert t[i] in t;
      ScanFromIsPending(t, i + 1, dict);
      PendingSkip(t, i, dict);
    } else if LetterRunEnd(t, i) - i > MaxWord {
      PendingStop(t, i, dict);
    } else {
      ScanFromIsPending(t, LetterRunEnd(t, i), dict);
      PendingWord(t, i, dict);
    }
  }

  /** Scanning the literal gives the same warnings as scanning its text:
      the scan never goes past the terminator. */
  lemma {:induction false} ScanFromText(s: seq<byte>, i: nat, dict: iset<seq<byte>>)
    requires 0 in s && i <= |Text(s)|
    ensures ScanFrom(s, i, dict) == ScanFrom(Text(s), i, dict)
    decreases |Text(s)| - i
  {
    var t := Text(s);
    if i == |t| {
    } else {
      assert s[i] == t[i] && t[i] in t;
      if !IsAlpha(t[i]) {
        ScanFromText(s, i + 1, dict);
      } else {
        var e := LetterRunEnd(t, i);
        assert AllLetters(s, i, e) && !IsAlpha(s[e]);
        LetterRunEndAt(s, i, e);
        assert s[i..e] == t[i..e];
        ScanFromText(s, e, dict);
      }
    }
  }

  /** Scanning the literal from its first byte yields its warnings. */
  lemma ScanIsWarnings(s: seq<byte>, dict: iset<seq<byte>>)
    requires 0 in s
    ensures ScanFrom(s, 0, dict) == Warnings(s, dict)
  {
    ScanFromText(s, 0, dict);
    ScanFromIsPending(Text(s), 0, dict);
    PendingAtStart(s, dict);
  }

  /** The warnings depend only on the bytes up to the terminator: whatever
      follows the first zero is never looked at. */
  lemma BytesAfterTerminatorIgnored(s: seq<byte>, u: seq<byte>, dict: iset<seq<byte>>)
    requires 0 in s
    ensures var s' := s[..FirstZero(s) + 1] + u;
      0 in s' && Warnings(s', dict) == Warnings(s, dict)
  {
    var z := FirstZero(s);
    var s' := s[..z + 1] + u;
    assert s'[z] == 0;
    FirstZeroAt(s', z);
    assert Text(s') == Text(s);
  }

  /** A literal without letters before its terminator draws no warning. */
  lemma NoLettersNoWarnings(s: seq<byte>, dict: iset<seq<byte>>)
    requires 0 in s
    requires forall k :: 0 <= k < FirstZero(s) ==> !IsAlpha(s[k])
    ensures Warnings(s, dict) == []
  {
    var t := Text(s);
    assert forall k :: 0 <= k < |t| ==> !IsAlpha(t[k]);
    NoRunsWithoutLetters(t);
  }

  /** Scanning from j gives the same warnings in t as in its prefix t[..p]
      when the scan stops at p in t: p is the end of t or the start of a run
      too long for the buffer. */
  lemma {:induction false} ScanStopsAtPrefix(t: seq<byte>, p: nat, j: nat, dict: iset<seq<byte>>)
    requires j <= p <= |t|
    requires p == 0 || !IsAlpha(t[p - 1])
    requires p < |t| ==> IsAlpha(t[p]) && LetterRunEnd(t, p) - p > MaxWord
    ensures ScanFrom(t, j, dict) == ScanFrom(t[..p], j, dict)
    decreases p - j
  {
    var q := t[..p];
    if j == p {
    } else if !IsAlpha(t[j]) {
      assert q[j] == t[j];
      ScanStopsAtPrefix(t, p, j + 1, dict);
    } else {
      var e := LetterRunEnd(t, j);
      assert e < p;
      assert AllLetters(q, j, e) && !IsAlpha(q[e]);
      LetterRunEndAt(q, j, e);
      assert q[j..e] == t[j..e];
      ScanStopsAtPrefix(t, p, e, dict);
    }
  }

  /** A run too long for the buffer ends the scan: the warnings are those of
      the text before the run, and nothing after it is checked. */
  lemma LongRunAbandonsRest(s: seq<byte>, i: nat, dict: iset<seq<byte>>)
    requires 0 in s && i < FirstZero(s)
    requires IsAlpha(s[i]) && (i == 0 || !IsAlpha(s[i - 1]))
    requires LetterRunEnd(Text(s), i) - i > MaxWord
    ensures 0 in s[..i] + [0]
    ensures Warnings(s, dict) == Warnings(s[..i] + [0], dict)
  {
    var t := Text(s);
    var s' := s[..i] + [0];
    assert forall k :: 0 <= k < i ==> s'[k] == s[k];
    FirstZeroAt(s', i);
    assert Text(s') == t[..i];
    ScanStopsAtPrefix(t, i, 0, dict);
    ScanFromText(s, 0, dict);
    ScanFromText(s', 0, dict);
    ScanIsWarnings(s, dict);
    ScanIsWarnings(s', dict);
  }

  /** Some span of r has length n. */
  ghost predicate HasLength(r: seq<Span>, n: nat) {
    exists j :: 0 <= j < |r| && r[j].len == n
  }

  /** A guard that lets runs of one more byte through changes the outcome
      exactly when a run of that extra length reaches the dictionary. */
  lemma {:induction false} GuardsDifferOnlyOnExactFit(r: seq<Span>, m: nat)
    ensures Admitted(r, m + 1) != Admitted(r, m) <==> HasLength(Admitted(r, m + 1), m + 1)
  {
    var wide := Admitted(r, m + 1);
    if r == [] || r[0].len > m + 1 {
    } else if r[0].len == m + 1 {
      assert wide[0].len == m + 1;
    } else {
      GuardsDifferOnlyOnExactFit(r[1..], m);
      var tail := Admitted(r[1..], m + 1);
      assert wide == [r[0]] + tail;
      if HasLength(tail, m + 1) {
        var j :| 0 <= j < |tail| && tail[j].len == m + 1;
        assert wide[j + 1] == tail[j];
      }
      if HasLength(wide, m + 1) {
        var j :| 0 <= j < |wide| && wide[j].len == m + 1;
        assert j > 0 && tail[j - 1] == wide[j];
      }
    }
  }
}
