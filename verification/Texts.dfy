/** White space and letter case in ASCII texts. */
module Texts {
  import opened Wrappers

  /** ASCII white space. */
  predicate IsSpace(c: char) { c in " \t\n\r" || c as int in {11, 12} }

  lemma SpacesAre(c: char)
    ensures IsSpace(c) <==> 9 <= c as int <= 13 || c as int == 32
  {
  }

  function TrimStart(s: string): string {
    if s != "" && IsSpace(s[0]) then TrimStart(s[1..]) else s
  }

  function TrimEnd(s: string): string {
    if s != "" && IsSpace(s[|s| - 1]) then TrimEnd(s[..|s| - 1]) else s
  }

  function Trim(s: string): string { TrimEnd(TrimStart(s)) }

  lemma TrimmedStays(s: string)
    requires s != "" ==> !IsSpace(s[0]) && !IsSpace(s[|s| - 1])
    ensures Trim(s) == s
  {
  }

  predicate Blank(s: string) {
    forall i :: 0 <= i < |s| ==> IsSpace(s[i])
  }

  lemma {:induction false} TrimsStart(before: string, text: string)
    requires Blank(before) && text != "" && !IsSpace(text[0])
    ensures TrimStart(before + text) == text
  {
    var s := before + text;
    if before == "" {
      assert s == text;
    } else {
      assert s[0] == before[0] && s[1..] == before[1..] + text;
      TrimsStart(before[1..], text);
    }
  }

  lemma {:induction false} TrimsEnd(text: string, after: string)
    requires Blank(after) && text != "" && !IsSpace(text[|text| - 1])
    ensures TrimEnd(text + after) == text
  {
    var s := text + after;
    if after == "" {
      assert s == text;
    } else {
      var last := |after| - 1;
      assert s[|s| - 1] == after[last] && s[..|s| - 1] == text + after[..last];
      TrimsEnd(text, after[..last]);
    }
  }

  /** Trimming takes away the white space at both ends, and nothing else. */
  lemma TrimsAround(before: string, text: string, after: string)
    requires Blank(before) && Blank(after) && text != "" && !IsSpace(text[0]) && !IsSpace(text[|text| - 1])
    ensures Trim(before + (text + after)) == text
  {
    TrimsStart(before, text + after);
    TrimsEnd(text, after);
  }

  lemma {:induction false} TrimEndsClean(s: string)
    ensures TrimEnd(s) != "" ==> !IsSpace(TrimEnd(s)[|TrimEnd(s)| - 1])
  {
    if s != "" && IsSpace(s[|s| - 1]) {
      TrimEndsClean(s[..|s| - 1]);
    }
  }

  predicate SameLetters(s: string, t: string) {
    |s| == |t| && forall i :: 0 <= i < |s| ==> Lower(s[i]) == Lower(t[i])
  }

  /** Capital letters become small ones, and nothing else changes. */
  lemma LowerExactly(c: char)
    ensures Lower(c) == if 65 <= c as int <= 90 then (c as int + 32) as char else c
  {
  }

  function Lowered(s: string): string {
    seq(|s|, i requires 0 <= i < |s| => Lower(s[i]))
  }

  /** Two texts have the same letters when they are the same in small letters. */
  lemma SameLettersExactly(s: string, t: string)
    ensures SameLetters(s, t) <==> Lowered(s) == Lowered(t)
  {
    if SameLetters(s, t) {
      assert Lowered(s) == Lowered(t);
    }
    if Lowered(s) == Lowered(t) {
      assert |Lowered(s)| == |s| && |Lowered(t)| == |t|;
      assert forall i :: 0 <= i < |s| ==> Lower(s[i]) == Lowered(s)[i] == Lowered(t)[i] == Lower(t[i]);
    }
  }
}
