/**
 * Worked literals: an ordinary sentence, and the 32-letter word on which the
 * buffer guard of spellhell.c lets the terminator fall outside `buf`.
 */
module Scenarios {
  import opened Ascii
  import opened Words

  /** With a dictionary that knows only "world", the literal "Helo world"
      draws one warning, for "Helo". */
  lemma HeloWorld()
    ensures var s := Bytes("Helo world") + [0];
      0 in s && Warnings(s, iset{Bytes("world")}) == [Bytes("Helo")]
  {
    var s := Bytes("Helo world") + [0];
    var dict := iset{Bytes("world")};
    assert s[10] == 0;
    LetterRunEndAt(s, 0, 4);
    LetterRunEndAt(s, 5, 10);
    assert s[0..4] == Bytes("Helo") && s[5..10] == Bytes("world");
    assert ScanFrom(s, 5, dict) == [];
    assert !IsAlpha(s[4]) && ScanFrom(s, 4, dict) == [];
    assert s[0..4] !in dict;
    assert ScanFrom(s, 0, dict) == [s[0..4]] + ScanFrom(s, 4, dict);
    ScanIsWarnings(s, dict);
  }

  /** Thirty-two letters: exactly the size of `buf`. */
  function ExactFit(): (s: seq<byte>)
    ensures |s| == BufSize + 1 && s[BufSize] == 0
  {
    seq(BufSize, _ => 97 as byte) + [0]
  }

  /** The guard as written, `end - data > sizeof(buf)`, lets a run of
      thirty-two letters through, and the terminator is then stored at index
      32 of a 32-byte buffer. The guard as intended abandons that literal, so
      no warning is issued whatever the dictionary says. */
  lemma AsWrittenGuardOverflows(dict: iset<seq<byte>>)
    ensures 0 in ExactFit()
    ensures var p := Checked(Text(ExactFit()), BufSize);
      p == [Span(0, BufSize)] && p[0].len == BufSize && !(p[0].len < BufSize)
    ensures Checked(Text(ExactFit()), MaxWord) == []
    ensures Warnings(ExactFit(), dict) == []
  {
    var s := ExactFit();
    FirstZeroAt(s, BufSize);
    var t := Text(s);
    assert AllLetters(t, 0, BufSize);
    LetterRunEndAt(t, 0, BufSize);
    assert RunsFrom(t, 0) == [Span(0, BufSize)] + RunsFrom(t, BufSize);
    assert Runs(t) == [Span(0, BufSize)];
  }
}
