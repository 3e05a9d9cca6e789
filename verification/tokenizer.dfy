/** The whitespace tokenizer of src/shell.c (`tokenize`): it drops one
    trailing newline, splits on spaces and tabs, keeps at most MaxArgs
    tokens and cuts each to ArgLen - 1 characters. */
module Tokenizer {
  import opened Wrappers
  import opened Limits
  import opened FieldSplit

  /** The two characters the tokenizer treats as whitespace. */
  const Blanks: set<char> := {' ', '\t'}

  /** s without its last character when that character is a newline. */
  function StripNewline(s: string): (t: string)
    ensures |s| > 0 && s[|s| - 1] == '\n' ==> t + "\n" == s
    ensures !(|s| > 0 && s[|s| - 1] == '\n') ==> t == s
  {
    if |s| > 0 && s[|s| - 1] == '\n' then s[..|s| - 1] else s
  }

  /** The first n characters of w (all of w when it is shorter). */
  function Truncate(w: string, n: nat): (t: string)
    ensures |t| == Min(|w|, n)
    ensures t == w[..|t|]
  {
    if |w| <= n then w else w[..n]
  }

  /** The first k words of ws, each cut to the ArgLen - 1 characters a
      token buffer can hold. */
  function Clip(ws: seq<string>, k: nat): (r: seq<string>)
    ensures |r| == Min(|ws|, k)
    ensures forall i :: 0 <= i < |r| ==> r[i] == Truncate(ws[i], ArgLen - 1)
  {
    if |ws| == 0 || k == 0 then [] else [Truncate(ws[0], ArgLen - 1)] + Clip(ws[1..], k - 1)
  }

  /** The scanning loop of the tokenizer, from position cp of s with
      argnum tokens already taken: skip blanks, copy the next run of
      non-blanks (at most ArgLen - 1 of its characters), repeat until the
      end of s or until MaxArgs tokens are held. */
  function ScanTokens(s: string, cp: nat, argnum: nat): (r: seq<string>)
    requires cp <= |s| && argnum <= MaxArgs
    ensures |r| <= MaxArgs - argnum
    ensures forall k :: 0 <= k < |r| ==> 0 < |r[k]| < ArgLen && NoSep(r[k], Blanks)
    ensures argnum < MaxArgs && !AllSep(s[cp..], Blanks) ==> |r| > 0
    decreases |s| - cp
  {
    if cp == |s| || argnum == MaxArgs then []
    else
      var start := SkipSeps(s, cp, Blanks);
      if start == |s| then
        assert forall i :: 0 <= i < |s[cp..]| ==> s[cp..][i] == s[cp + i];
        []
      else
        var stop := FieldEnd(s, start, Blanks);
        var len := if stop - start >= ArgLen then ArgLen - 1 else stop - start;
        [s[start..start + len]] + ScanTokens(s, stop, argnum + 1)
  }

  /** tokenize(cmdline): None for a NULL line and for a line that is blank
      once one trailing newline is gone; otherwise the tokens. */
  function Tokenize(line: Option<string>): (r: Option<seq<string>>)
    ensures line.None? ==> r.None?
    ensures line.Some? ==> (r.None? <==> AllSep(StripNewline(line.value), Blanks))
    ensures r.Some? ==> 0 < |r.value| <= MaxArgs
    ensures r.Some? ==> forall k :: 0 <= k < |r.value| ==>
                          0 < |r.value[k]| < ArgLen && NoSep(r.value[k], Blanks)
  {
    match line
    case None => None
    case Some(s) =>
      var t := StripNewline(s);
      if SkipSeps(t, 0, Blanks) == |t| then
        assert t[0..] == t;
        None
      else
        assert t[0..] == t;
        var tokens := ScanTokens(t, 0, 0);
        if |tokens| == 0 then None else Some(tokens)
  }

  lemma ClipCons(w: string, ws: seq<string>, k: nat)
    requires k > 0
    ensures Clip([w] + ws, k) == [Truncate(w, ArgLen - 1)] + Clip(ws, k - 1)
  {
    assert ([w] + ws)[1..] == ws;
  }

  /** Clipping changes nothing when there are few enough, short enough words. */
  lemma ClipShort(ws: seq<string>, k: nat)
    requires |ws| <= k
    requires forall i :: 0 <= i < |ws| ==> |ws[i]| < ArgLen
    ensures Clip(ws, k) == ws
  {
    var r := Clip(ws, k);
    forall i | 0 <= i < |ws|
      ensures r[i] == ws[i]
    {
      assert ws[i][..|ws[i]|] == ws[i];
    }
  }

  /** Cutting a slice is taking a shorter slice, as the loop does with `len`. */
  lemma TruncateSlice(s: string, start: nat, stop: nat)
    requires start <= stop <= |s|
    ensures var len := if stop - start >= ArgLen then ArgLen - 1 else stop - start;
            Truncate(s[start..stop], ArgLen - 1) == s[start..start + len]
  {
  }

  /** One round of the scanning loop. */
  lemma ScanTokensStep(s: string, cp: nat, argnum: nat)
    requires cp < |s| && argnum < MaxArgs && SkipSeps(s, cp, Blanks) < |s|
    ensures var start := SkipSeps(s, cp, Blanks);
            var stop := FieldEnd(s, start, Blanks);
            var len := if stop - start >= ArgLen then ArgLen - 1 else stop - start;
            ScanTokens(s, cp, argnum) == [s[start..start + len]] + ScanTokens(s, stop, argnum + 1)
  {
  }

  /** The scanning loop yields the first MaxArgs - argnum blank-separated
      words of the rest of s, each truncated. */
  lemma {:induction false} ScanTokensClip(s: string, cp: nat, argnum: nat)
    requires cp <= |s| && argnum <= MaxArgs
    ensures ScanTokens(s, cp, argnum) == Clip(Fields(s[cp..], Blanks), MaxArgs - argnum)
    decreases |s| - cp
  {
    if cp == |s| {
      assert s[cp..] == [];
    } else if argnum < MaxArgs {
      var start := SkipSeps(s, cp, Blanks);
      if start == |s| {
        FieldsSkip(s, cp, Blanks);
        assert s[start..] == [];
      } else {
        ScanTokensClip(s, FieldEnd(s, start, Blanks), argnum + 1);
        ScanTokensRound(s, cp, argnum);
      }
    }
  }

  /** One round of the scanning loop agrees with clipping the words, given
      that the rounds after it do. */
  lemma ScanTokensRound(s: string, cp: nat, argnum: nat)
    requires cp < |s| && argnum < MaxArgs && SkipSeps(s, cp, Blanks) < |s|
    requires var stop := FieldEnd(s, SkipSeps(s, cp, Blanks), Blanks);
             ScanTokens(s, stop, argnum + 1) == Clip(Fields(s[stop..], Blanks), MaxArgs - argnum - 1)
    ensures ScanTokens(s, cp, argnum) == Clip(Fields(s[cp..], Blanks), MaxArgs - argnum)
  {
    var start := SkipSeps(s, cp, Blanks);
    var stop := FieldEnd(s, start, Blanks);
    var len := if stop - start >= ArgLen then ArgLen - 1 else stop - start;
    ScanTokensStep(s, cp, argnum);
    FieldsNext(s, cp, Blanks);
    TruncateSlice(s, start, stop);
    ClipRound(s[start..start + len], s[start..stop], Fields(s[stop..], Blanks),
              ScanTokens(s, stop, argnum + 1), MaxArgs - argnum);
  }

  lemma ClipRound(token: string, word: string, rest: seq<string>, tail: seq<string>, k: nat)
    requires k > 0 && Truncate(word, ArgLen - 1) == token && tail == Clip(rest, k - 1)
    ensures [token] + tail == Clip([word] + rest, k)
  {
    assert ([word] + rest)[1..] == rest;
  }

  /** What tokenize computes, stated through the blank-separated words of
      the line: the first MaxArgs of them, in their original order, each
      cut to ArgLen - 1 characters; words past the tenth are dropped. */
  lemma TokenizeWords(s: string)
    ensures Tokenize(Some(s))
         == if AllSep(StripNewline(s), Blanks) then None
            else Some(Clip(Fields(StripNewline(s), Blanks), MaxArgs))
  {
    var t := StripNewline(s);
    ScanTokensClip(t, 0, 0);
    assert t[0..] == t;
  }

  /** A line of at most MaxArgs words of fewer than ArgLen characters each,
      written with single spaces, tokenizes back into exactly those words. */
  lemma TokenizeJoin(ws: seq<string>)
    requires 0 < |ws| <= MaxArgs
    requires forall k :: 0 <= k < |ws| ==> 0 < |ws[k]| < ArgLen && NoSep(ws[k], Blanks)
    requires ws[|ws| - 1][|ws[|ws| - 1]| - 1] != '\n'
    ensures Tokenize(Some(JoinWith(ws, ' '))) == Some(ws)
  {
    var line := JoinWith(ws, ' ');
    JoinEnds(ws, ' ');
    assert StripNewline(line) == line;
    assert !AllSep(line, Blanks) by {
      assert line[0] == ws[0][0];
    }
    assert Tokenize(Some(line)) == Some(Clip(Fields(line, Blanks), MaxArgs)) by {
      TokenizeWords(line);
    }
    assert Clip(Fields(line, Blanks), MaxArgs) == ws by {
      FieldsJoin(ws, ' ', Blanks);
      ClipShort(ws, MaxArgs);
    }
  }

  /** A joined line starts with the first word's first character and ends
      with the last word's last character. */
  lemma {:induction false} JoinEnds(ws: seq<string>, c: char)
    requires 0 < |ws|
    requires forall k :: 0 <= k < |ws| ==> 0 < |ws[k]|
    ensures |JoinWith(ws, c)| >= |ws[0]|
    ensures JoinWith(ws, c)[0] == ws[0][0]
    ensures JoinWith(ws, c)[|JoinWith(ws, c)| - 1] == ws[|ws| - 1][|ws[|ws| - 1]| - 1]
    ensures |ws| > 1 ==> |JoinWith(ws, c)| > |ws[0]| + 1
    decreases |ws|
  {
    if |ws| > 1 {
      JoinEnds(ws[1..], c);
    }
  }
}
