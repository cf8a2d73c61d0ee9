/**
 * The scanning loop of `spell_check` in spellhell.c, over a string literal's
 * bytes and a 32-byte scratch buffer. The dictionary is the parameter `dict`;
 * each warning the plugin would print is appended to the result.
 */
module Spellhell {
  import opened Ascii
  import opened Words

  /** The warnings issued before the scan reached index data, followed by
      those the scan issues from there on, are those of the whole scan. */
  ghost predicate ScannedUpTo(str: seq<byte>, dict: iset<seq<byte>>, warnings: seq<seq<byte>>, data: nat) {
    data <= |str| && warnings + ScanFrom(str, data, dict) == ScanFrom(str, 0, dict)
  }

  /** Where the scan returns, at the terminator or at a run too long for the
      buffer, the warnings issued are all there are. */
  lemma ScanStops(str: seq<byte>, dict: iset<seq<byte>>, warnings: seq<seq<byte>>, data: nat)
    requires 0 in str && ScannedUpTo(str, dict, warnings, data) && data < |str|
    requires str[data] == 0 || (IsAlpha(str[data]) && LetterRunEnd(str, data) - data > MaxWord)
    ensures warnings == Warnings(str, dict)
  {
    ScanIsWarnings(str, dict);
  }

  /** Checking the run from data to end and moving past it keeps the scan
      on track. */
  lemma ScanChecks(str: seq<byte>, dict: iset<seq<byte>>, warnings: seq<seq<byte>>, data: nat, end: nat)
    requires ScannedUpTo(str, dict, warnings, data)
    requires data < |str| && IsAlpha(str[data])
    requires end == LetterRunEnd(str, data) && end - data <= MaxWord
    ensures var w := str[data..end];
      ScannedUpTo(str, dict, warnings + (if w in dict then [] else [w]), end)
  {
    var w := str[data..end];
    var head := if w in dict then [] else [w];
    ScanFromWord(str, data, dict);
    assert (warnings + head) + ScanFrom(str, end, dict) == warnings + (head + ScanFrom(str, end, dict));
  }

  /** Finds the end of the word at data: the first byte after it that is
      not a letter, which at the latest is the terminator. */
  method WordEnd(str: seq<byte>, data: nat) returns (end: nat)
    requires 0 in str && data <= FirstZero(str)
    ensures end == LetterRunEnd(str, data) && end <= FirstZero(str)
  {
    end := data;
    while IsAlpha(str[end])
      invariant data <= end <= FirstZero(str)
      invariant AllLetters(str, data, end)
      decreases FirstZero(str) - end
    {
      end := end + 1;
    }
    LetterRunEndAt(str, data, end);
  }

  /** Copies the word from data to end into buf (`memcpy`), terminates it,
      and asks the dictionary about the copy; a rejected word is appended to
      the warnings as the C string now in buf. */
  method CheckWord(buf: array<byte>, str: seq<byte>, data: nat, end: nat, dict: iset<seq<byte>>,
                   warnings: seq<seq<byte>>) returns (warnings': seq<seq<byte>>)
    requires data <= end <= |str| && end - data < buf.Length
    requires AllLetters(str, data, end)
    modifies buf
    ensures buf[..end - data] == str[data..end] && buf[end - data] == 0
    ensures forall k :: end - data < k < buf.Length ==> buf[k] == old(buf[k])
    ensures var w := str[data..end];
      warnings' == warnings + (if w in dict then [] else [w])
  {
    forall k | 0 <= k < end - data {
      buf[k] := str[data + k];
    }
    buf[end - data] := 0;
    assert buf[..end - data] == str[data..end];
    TerminatedWord(buf[..], end - data);
    warnings' := warnings;
    if buf[..end - data] !in dict {
      warnings' := warnings + [buf[..FirstZero(buf[..])]];
    }
  }

  /** Scans the C string in str word by word and returns, in order, the text
      of every warning: each letter run is copied into `buf`, terminated, and
      reported when the dictionary rejects it. The scan gives up on the rest
      of the string at the first run that does not fit in `buf` with its
      terminator. */
  method SpellCheck(str: seq<byte>, dict: iset<seq<byte>>) returns (warnings: seq<seq<byte>>)
    requires 0 in str
    ensures warnings == Warnings(str, dict)
  {
    var buf := new byte[BufSize](_ => 0);
    ghost var z := FirstZero(str);
    var data := 0;
    warnings := [];
    while str[data] != 0
      invariant data <= z && ScannedUpTo(str, dict, warnings, data)
      decreases z - data
    {
      // Skip non-letters, including blanks.
      while !IsAlpha(str[data])
        invariant data <= z && ScannedUpTo(str, dict, warnings, data)
        decreases z - data
      {
        if str[data] == 0 {
          ScanStops(str, dict, warnings, data);
          return;
        }
        data := data + 1;
      }

      var end := WordEnd(str, data);
      if end - data >= buf.Length {
        ScanStops(str, dict, warnings, data);
        return;
      }

      ScanChecks(str, dict, warnings, data, end);
      warnings := CheckWord(buf, str, data, end, dict, warnings);
      data := end;
    }
    ScanStops(str, dict, warnings, data);
  }
}
