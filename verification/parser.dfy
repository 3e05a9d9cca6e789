/** parse_segments of src/shell.c: a command line becomes the stages of a
    pipeline. The line is cut at every "|", each piece is trimmed and split
    into words (with "<" and ">" always words of their own), the
    redirection targets are pulled out, and the remaining words are joined
    with spaces and handed to the tokenizer. */
module Parser {
  import opened Wrappers
  import opened Limits
  import opened FieldSplit
  import opened Tokenizer
  import opened WordSplit

  /** Capacity of the word array of one segment (MAXARGS + 10). */
  const MaxWords: nat := MaxArgs + 10

  /** The pipe operator, the only separator between segments. */
  const PipeChars: set<char> := {'|'}

  /** The redirection operators, each a word of its own inside a segment. */
  const Operators: set<char> := {'<', '>'}

  /** One stage of a pipeline: its argument vector (None for NULL) and its
      redirection targets (None for NULL). */
  datatype Stage = Stage(argv: Option<seq<string>>, infile: Option<string>, outfile: Option<string>)

  /** What the redirection scan of one segment collects: the words kept
      for the command and the last input and output targets seen. */
  datatype Redirects = Redirects(kept: seq<string>, infile: Option<string>, outfile: Option<string>)

  const NoRedirects: Redirects := Redirects([], None, None)

  predicate IsOperator(w: string)
  {
    w == "<" || w == ">"
  }

  /** An ordinary word: non-empty, with no blank and no "<" or ">". */
  predicate PlainWord(w: string)
  {
    |w| > 0 && NoSep(w, Blanks + Operators)
  }

  /** The shape of every word the segment scanner produces. */
  predicate WordShape(w: string)
  {
    IsOperator(w) || PlainWord(w)
  }

  // ---------------------------------------------------------------------
  // Segments and trimming

  /** The raw segments of a line: what strtok_r(copy, "|") returns in turn. */
  function Segments(line: string): seq<string>
  {
    Fields(line, PipeChars)
  }

  /** Where a segment ends once its trailing blanks are cut. Like the loop
      in parse_segments it never moves below lo + 1, the position after
      the first kept character. */
  function TrimTail(s: string, lo: nat, hi: nat): (h: nat)
    requires lo <= hi <= |s|
    ensures lo <= h <= hi
    ensures hi > lo ==> h > lo
    ensures forall k :: h <= k < hi ==> s[k] in Blanks
    ensures h <= lo + 1 || s[h - 1] !in Blanks
    decreases hi
  {
    if hi > lo + 1 && s[hi - 1] in Blanks then TrimTail(s, lo, hi - 1) else hi
  }

  /** A segment with its leading and trailing spaces and tabs removed. */
  function Trim(s: string): (t: string)
    ensures |t| == 0 || (t[0] !in Blanks && t[|t| - 1] !in Blanks)
    ensures |t| == 0 <==> AllSep(s, Blanks)
  {
    var lo := SkipSeps(s, 0, Blanks);
    var hi := TrimTail(s, lo, |s|);
    assert lo == |s| ==> AllSep(s, Blanks);
    assert lo < |s| ==> !AllSep(s, Blanks);
    s[lo..hi]
  }

  /** Trimming removes only blanks, and only at the two ends. */
  lemma TrimOnlyEnds(s: string)
    ensures exists i, j :: 0 <= i <= j <= |s| && Trim(s) == s[i..j]
                           && AllSep(s[..i], Blanks) && AllSep(s[j..], Blanks)
  {
    var lo := SkipSeps(s, 0, Blanks);
    var hi := TrimTail(s, lo, |s|);
    assert AllSep(s[..lo], Blanks);
    assert AllSep(s[hi..], Blanks);
  }

  // ---------------------------------------------------------------------
  // Words of a segment

  /** The words of a segment: blanks separate words, "<" and ">" are words
      of one character wherever they stand, and any other word runs until
      a blank, "<" or ">". */
  function SegmentWords(s: string): seq<string>
  {
    Words(s, Blanks, Operators)
  }

  lemma WordShapeIsWord(w: string)
    ensures WordShape(w) <==> IsWord(w, Blanks, Operators)
  {
    if |w| == 1 && w[0] in Operators {
      assert w == [w[0]];
    }
  }

  /** Every word is "<", ">" or an ordinary word. */
  lemma SegmentWordsShape(s: string)
    ensures forall k :: 0 <= k < |SegmentWords(s)| ==> WordShape(SegmentWords(s)[k])
  {
    var ws := SegmentWords(s);
    WordsShape(s, Blanks, Operators);
    forall k | 0 <= k < |ws|
      ensures WordShape(ws[k])
    {
      WordShapeIsWord(ws[k]);
    }
  }

  /** The words hold exactly the non-blank characters of the segment, in order. */
  lemma SegmentWordsConcat(s: string)
    ensures Concat(SegmentWords(s)) == RemoveSeps(s, Blanks)
  {
    WordsConcat(s, Blanks, Operators);
  }

  /** "<" and ">" are words of their own even with no blank around them. */
  lemma OperatorStandsAlone(a: string, op: char, b: string)
    requires op in Operators
    ensures SegmentWords(a + [op] + b) == SegmentWords(a) + [[op]] + SegmentWords(b)
  {
    WordsOperator(a, op, b, Blanks, Operators);
  }

  /** Words written with single spaces between them split back into
      exactly those words. */
  lemma SegmentWordsJoin(ws: seq<string>)
    requires forall k :: 0 <= k < |ws| ==> WordShape(ws[k])
    ensures SegmentWords(JoinWith(ws, ' ')) == ws
  {
    forall k | 0 <= k < |ws|
      ensures IsWord(ws[k], Blanks, Operators)
    {
      WordShapeIsWord(ws[k]);
    }
    WordsJoin(ws, ' ', Blanks, Operators);
  }

  /** Blanks at the two ends of a segment are not part of any word, so
      trimming never changes the words. */
  lemma SegmentWordsTrim(s: string)
    ensures SegmentWords(Trim(s)) == SegmentWords(s)
  {
    var lo := SkipSeps(s, 0, Blanks);
    var hi := TrimTail(s, lo, |s|);
    assert s == s[..lo] + (s[lo..hi] + s[hi..]);
    WordsPadded(s[..lo], s[lo..hi], s[hi..], Blanks, Operators);
  }

  // ---------------------------------------------------------------------
  // Redirections

  /** The redirection loop of parse_segments from word j on: "<" or ">"
      followed by a word sets the input or output target to that word,
      overwriting an earlier one; an operator with nothing after it is
      skipped; every other word is kept for the command. */
  function ScanFrom(ws: seq<string>, j: nat, acc: Redirects): Redirects
    requires j <= |ws|
    decreases |ws| - j
  {
    if j == |ws| then acc
    else if ws[j] == "<" then
      if j + 1 < |ws| then ScanFrom(ws, j + 2, acc.(infile := Some(ws[j + 1])))
      else ScanFrom(ws, j + 1, acc)
    else if ws[j] == ">" then
      if j + 1 < |ws| then ScanFrom(ws, j + 2, acc.(outfile := Some(ws[j + 1])))
      else ScanFrom(ws, j + 1, acc)
    else ScanFrom(ws, j + 1, acc.(kept := acc.kept + [ws[j]]))
  }

  /** The redirection scan of a whole word list. Both targets default to
      None, and no operator is ever kept as a command word. */
  function ScanRedirects(ws: seq<string>): (r: Redirects)
    ensures |r.kept| <= |ws|
    ensures forall k :: 0 <= k < |r.kept| ==> !IsOperator(r.kept[k])
    ensures (forall k :: 0 <= k < |ws| ==> ws[k] != "<") ==> r.infile.None?
    ensures (forall k :: 0 <= k < |ws| ==> ws[k] != ">") ==> r.outfile.None?
  {
    ScanFromShape(ws, 0, NoRedirects);
    ScanFrom(ws, 0, NoRedirects)
  }

  /** The scan keeps at most one word per word read, never keeps an
      operator, and leaves a target alone when no operator for it is read. */
  lemma {:induction false} ScanFromShape(ws: seq<string>, j: nat, acc: Redirects)
    requires j <= |ws|
    ensures var r := ScanFrom(ws, j, acc);
            && |r.kept| <= |acc.kept| + |ws| - j
            && ((forall k :: 0 <= k < |acc.kept| ==> !IsOperator(acc.kept[k])) ==>
                  forall k :: 0 <= k < |r.kept| ==> !IsOperator(r.kept[k]))
            && ((forall k :: j <= k < |ws| ==> ws[k] != "<") ==> r.infile == acc.infile)
            && ((forall k :: j <= k < |ws| ==> ws[k] != ">") ==> r.outfile == acc.outfile)
    decreases |ws| - j
  {
    if j < |ws| {
      if ws[j] == "<" && j + 1 < |ws| {
        ScanFromShape(ws, j + 2, acc.(infile := Some(ws[j + 1])));
      } else if ws[j] == ">" && j + 1 < |ws| {
        ScanFromShape(ws, j + 2, acc.(outfile := Some(ws[j + 1])));
      } else if IsOperator(ws[j]) {
        ScanFromShape(ws, j + 1, acc);
      } else {
        ScanFromShape(ws, j + 1, acc.(kept := acc.kept + [ws[j]]));
      }
    }
  }

  /** Scanning from j ends exactly at the end of ws with no operator left
      waiting for its target. */
  predicate OperatorsHaveTargets(ws: seq<string>, j: nat)
    requires j <= |ws|
    decreases |ws| - j
  {
    if j == |ws| then true
    else if IsOperator(ws[j]) then j + 1 < |ws| && OperatorsHaveTargets(ws, j + 2)
    else OperatorsHaveTargets(ws, j + 1)
  }

  lemma {:induction false} ScanShift(a: seq<string>, b: seq<string>, j: nat, acc: Redirects)
    requires j <= |b|
    ensures ScanFrom(a + b, |a| + j, acc) == ScanFrom(b, j, acc)
    decreases |b| - j
  {
    if j < |b| {
      assert (a + b)[|a| + j] == b[j];
      if IsOperator(b[j]) && j + 1 < |b| {
        assert (a + b)[|a| + j + 1] == b[j + 1];
        var acc' := if b[j] == "<" then acc.(infile := Some(b[j + 1])) else acc.(outfile := Some(b[j + 1]));
        ScanShift(a, b, j + 2, acc');
      } else if IsOperator(b[j]) {
        ScanShift(a, b, j + 1, acc);
      } else {
        ScanShift(a, b, j + 1, acc.(kept := acc.kept + [b[j]]));
      }
    }
  }

  /** Scanning two word lists one after the other is scanning the first
      and then carrying on with the second, as long as the first does not
      end with an operator still waiting for its target. */
  lemma {:induction false} ScanAppend(a: seq<string>, b: seq<string>, j: nat, acc: Redirects)
    requires j <= |a| && OperatorsHaveTargets(a, j)
    ensures ScanFrom(a + b, j, acc) == ScanFrom(b, 0, ScanFrom(a, j, acc))
    decreases |a| - j
  {
    if j == |a| {
      ScanShift(a, b, 0, acc);
    } else {
      assert (a + b)[j] == a[j];
      if IsOperator(a[j]) {
        assert (a + b)[j + 1] == a[j + 1];
        var acc' := if a[j] == "<" then acc.(infile := Some(a[j + 1])) else acc.(outfile := Some(a[j + 1]));
        ScanAppend(a, b, j + 2, acc');
      } else {
        ScanAppend(a, b, j + 1, acc.(kept := acc.kept + [a[j]]));
      }
    }
  }

  lemma {:induction false} TargetsFollowAppend(a: seq<string>, b: seq<string>, j: nat)
    requires j <= |a| && OperatorsHaveTargets(a, j) && OperatorsHaveTargets(b, 0)
    ensures OperatorsHaveTargets(a + b, j)
    decreases |a| - j
  {
    if j == |a| {
      TargetsFollowShift(a, b, 0);
    } else {
      assert (a + b)[j] == a[j];
      if IsOperator(a[j]) {
        TargetsFollowAppend(a, b, j + 2);
      } else {
        TargetsFollowAppend(a, b, j + 1);
      }
    }
  }

  lemma {:induction false} TargetsFollowShift(a: seq<string>, b: seq<string>, j: nat)
    requires j <= |b| && OperatorsHaveTargets(b, j)
    ensures OperatorsHaveTargets(a + b, |a| + j)
    decreases |b| - j
  {
    if j < |b| {
      assert (a + b)[|a| + j] == b[j];
      if IsOperator(b[j]) {
        TargetsFollowShift(a, b, j + 2);
      } else {
        TargetsFollowShift(a, b, j + 1);
      }
    }
  }

  /** A later "<" overrides an earlier one, and its target is not kept. */
  lemma LastInputWins(a: seq<string>, f: string)
    requires OperatorsHaveTargets(a, 0)
    ensures ScanRedirects(a + ["<", f]) == ScanRedirects(a).(infile := Some(f))
    ensures OperatorsHaveTargets(a + ["<", f], 0)
  {
    ScanAppend(a, ["<", f], 0, NoRedirects);
    TargetsFollowAppend(a, ["<", f], 0);
  }

  /** A later ">" overrides an earlier one, and its target is not kept. */
  lemma LastOutputWins(a: seq<string>, f: string)
    requires OperatorsHaveTargets(a, 0)
    ensures ScanRedirects(a + [">", f]) == ScanRedirects(a).(outfile := Some(f))
    ensures OperatorsHaveTargets(a + [">", f], 0)
  {
    ScanAppend(a, [">", f], 0, NoRedirects);
    TargetsFollowAppend(a, [">", f], 0);
  }

  /** An ordinary word is appended to the kept words. */
  lemma WordIsKept(a: seq<string>, w: string)
    requires OperatorsHaveTargets(a, 0) && !IsOperator(w)
    ensures ScanRedirects(a + [w]) == ScanRedirects(a).(kept := ScanRedirects(a).kept + [w])
    ensures OperatorsHaveTargets(a + [w], 0)
  {
    ScanAppend(a, [w], 0, NoRedirects);
    TargetsFollowAppend(a, [w], 0);
  }

  /** An operator at the very end, with no word after it, is ignored. */
  lemma DanglingOperatorIgnored(a: seq<string>, op: string)
    requires OperatorsHaveTargets(a, 0) && IsOperator(op)
    ensures ScanRedirects(a + [op]) == ScanRedirects(a)
  {
    ScanAppend(a, [op], 0, NoRedirects);
  }

  /** On well-shaped words the kept words are ordinary words. */
  lemma {:induction false} KeptWordsPlain(ws: seq<string>, j: nat, acc: Redirects)
    requires j <= |ws|
    requires forall k :: 0 <= k < |ws| ==> WordShape(ws[k])
    requires forall k :: 0 <= k < |acc.kept| ==> PlainWord(acc.kept[k])
    ensures forall k :: 0 <= k < |ScanFrom(ws, j, acc).kept| ==> PlainWord(ScanFrom(ws, j, acc).kept[k])
    decreases |ws| - j
  {
    if j < |ws| {
      if ws[j] == "<" && j + 1 < |ws| {
        KeptWordsPlain(ws, j + 2, acc.(infile := Some(ws[j + 1])));
      } else if ws[j] == ">" && j + 1 < |ws| {
        KeptWordsPlain(ws, j + 2, acc.(outfile := Some(ws[j + 1])));
      } else if IsOperator(ws[j]) {
        KeptWordsPlain(ws, j + 1, acc);
      } else {
        KeptWordsPlain(ws, j + 1, acc.(kept := acc.kept + [ws[j]]));
      }
    }
  }

  // ---------------------------------------------------------------------
  // Stages

  /** The command buffer of parse_segments: the kept words joined with
      single spaces, cut to the MaxLen - 1 characters the buffer holds. */
  function CommandBuffer(kept: seq<string>): string
  {
    Truncate(JoinWith(kept, ' '), MaxLen - 1)
  }

  /** One trimmed segment as a stage. */
  function ParseSegment(seg: string): (st: Stage)
    requires |SegmentWords(seg)| <= MaxWords
    ensures st.argv.Some? ==> 0 < |st.argv.value| <= MaxArgs
    ensures st.argv.Some? ==> forall k :: 0 <= k < |st.argv.value| ==>
              0 < |st.argv.value[k]| < ArgLen && NoSep(st.argv.value[k], Blanks)
    ensures (forall k :: 0 <= k < |seg| ==> seg[k] != '<') ==> st.infile.None?
    ensures (forall k :: 0 <= k < |seg| ==> seg[k] != '>') ==> st.outfile.None?
  {
    var ws := SegmentWords(seg);
    var r := ScanRedirects(ws);
    WordsWithout(seg, '<', Blanks, Operators);
    WordsWithout(seg, '>', Blanks, Operators);
    Stage(if |r.kept| == 0 then None else Tokenize(Some(CommandBuffer(r.kept))), r.infile, r.outfile)
  }

  /** The argument vector is missing exactly when no word was kept, or when
      the only kept word is a lone newline, which the tokenizer strips. */
  lemma ArgvMissing(seg: string)
    requires |SegmentWords(seg)| <= MaxWords
    ensures var kept := ScanRedirects(SegmentWords(seg)).kept;
            ParseSegment(seg).argv.None? <==> (kept == [] || kept == ["\n"])
  {
    var ws := SegmentWords(seg);
    var kept := ScanRedirects(ws).kept;
    if kept != [] {
      SegmentWordsShape(seg);
      KeptWordsPlain(ws, 0, NoRedirects);
      BufferBlank(kept);
    }
  }

  /** The command buffer of ordinary words holds nothing but a newline
      exactly when the words are the single word "\n". */
  lemma BufferBlank(kept: seq<string>)
    requires kept != [] && forall k :: 0 <= k < |kept| ==> PlainWord(kept[k])
    ensures AllSep(StripNewline(CommandBuffer(kept)), Blanks) <==> kept == ["\n"]
  {
    JoinEnds(kept, ' ');
    var line := JoinWith(kept, ' ');
    var buf := CommandBuffer(kept);
    assert buf[0] == line[0] == kept[0][0];
    assert buf[0] !in Blanks;
    var t := StripNewline(buf);
    if AllSep(t, Blanks) {
      assert |t| == 0;
      assert |line| == 1;
      assert kept == [[line[0]]];
    }
    if kept == ["\n"] {
      assert line == "\n";
      assert t == "";
    }
  }

  /** When the kept words fit the command buffer and do not end in a
      newline, the argument vector is the tokenizer's cut of those words:
      the first MaxArgs of them, in order, each truncated to ArgLen - 1. */
  lemma ArgvFromKeptWords(seg: string)
    requires |SegmentWords(seg)| <= MaxWords
    requires var kept := ScanRedirects(SegmentWords(seg)).kept;
             var line := JoinWith(kept, ' ');
             0 < |line| < MaxLen && line[|line| - 1] != '\n'
    ensures var kept := ScanRedirects(SegmentWords(seg)).kept;
            ParseSegment(seg).argv == Some(Clip(kept, MaxArgs))
  {
    var ws := SegmentWords(seg);
    var kept := ScanRedirects(ws).kept;
    SegmentWordsShape(seg);
    KeptWordsPlain(ws, 0, NoRedirects);
    assert forall k :: 0 <= k < |kept| ==> |kept[k]| > 0 && NoSep(kept[k], Blanks);
    JoinEnds(kept, ' ');
    var line := JoinWith(kept, ' ');
    assert CommandBuffer(kept) == line;
    assert StripNewline(line) == line;
    assert line[0] !in Blanks;
    TokenizeWords(line);
    FieldsJoin(kept, ' ', Blanks);
  }

  // ---------------------------------------------------------------------
  // Whole lines

  /** Every segment of the line has at most MaxWords words, the size of
      the word array parse_segments fills. */
  predicate WithinWordLimit(line: string)
  {
    forall k :: 0 <= k < |Segments(line)| ==> |SegmentWords(Trim(Segments(line)[k]))| <= MaxWords
  }

  /** parse_segments(cmdline): one stage per maximal run of non-"|"
      characters, in order; a NULL line gives no stage. */
  function ParseLine(line: Option<string>): (stages: seq<Stage>)
    requires line.Some? ==> WithinWordLimit(line.value)
    ensures line.None? ==> stages == []
    ensures line.Some? ==> |stages| == |Segments(line.value)| == RunStarts(line.value, PipeChars, true)
    ensures line.Some? ==> forall i :: 0 <= i < |stages| ==>
              stages[i] == ParseSegment(Trim(Segments(line.value)[i]))
  {
    match line
    case None => []
    case Some(s) =>
      var segs := Segments(s);
      FieldsCount(s, PipeChars);
      seq(|segs|, i requires 0 <= i < |segs| => ParseSegment(Trim(segs[i])))
  }

  /** Pipes at the ends of a line, and runs of several pipes, add no
      stage; a line with no character other than "|" has no stage at all. */
  lemma PipesCollapse(a: string, b: string)
    ensures Segments("|" + b) == Segments(b)
    ensures Segments(a + "|") == Segments(a)
    ensures Segments(a + "||" + b) == Segments(a + "|" + b)
    ensures AllSep(a, PipeChars) ==> Segments(a) == []
  {
    SeparatorRunsCollapse(a, b, '|', '|', PipeChars);
    assert "|" + b == ['|'] + b;
    assert a + "||" + b == a + ['|'] + ['|'] + b;
    assert a + "|" + b == a + ['|'] + b;
    FieldsConcat(a, PipeChars);
    if AllSep(a, PipeChars) {
      AllSepRemoved(a, PipeChars);
      FieldsShape(a, PipeChars);
      if |Fields(a, PipeChars)| > 0 {
        ConcatNonEmpty(Fields(a, PipeChars));
      }
    }
  }

  lemma {:induction false} AllSepRemoved(s: string, seps: set<char>)
    requires AllSep(s, seps)
    ensures RemoveSeps(s, seps) == ""
    decreases |s|
  {
    if |s| > 0 {
      AllSepRemoved(s[1..], seps);
    }
  }

  lemma ConcatNonEmpty(ws: seq<string>)
    requires |ws| > 0 && |ws[0]| > 0
    ensures |Concat(ws)| > 0
  {
  }

  /** A line of blanks only is one stage with no command and no redirection. */
  lemma BlankLine(s: string)
    requires |s| > 0 && AllSep(s, Blanks)
    ensures WithinWordLimit(s)
    ensures ParseLine(Some(s)) == [Stage(None, None, None)]
  {
    assert NoSep(s, PipeChars);
    FieldsSingle(s, PipeChars);
    assert Trim(s) == "";
    assert SegmentWords("") == [];
  }
}
