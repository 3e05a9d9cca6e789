/** Splitting a string into words when some characters separate words
    (blanks) and others are words of their own wherever they stand
    (operators). parse_segments splits each pipeline segment this way, with
    "<" and ">" as the operators. */
module WordSplit {
  import opened FieldSplit

  /** The words of s: blanks separate words, each operator character is a
      one-character word, and any other word runs until the next blank or
      operator. */
  function Words(s: string, blanks: set<char>, ops: set<char>): seq<string>
    decreases |s|
  {
    if |s| == 0 then []
    else if s[0] in blanks then Words(s[1..], blanks, ops)
    else if s[0] in ops then [[s[0]]] + Words(s[1..], blanks, ops)
    else
      var e := FieldEnd(s, 0, blanks + ops);
      [s[..e]] + Words(s[e..], blanks, ops)
  }

  /** A word as Words produces it: a lone operator, or a non-empty run of
      characters that are neither blanks nor operators. */
  predicate IsWord(w: string, blanks: set<char>, ops: set<char>)
  {
    (|w| == 1 && w[0] in ops) || (|w| > 0 && NoSep(w, blanks + ops))
  }

  lemma {:induction false} WordsShape(s: string, blanks: set<char>, ops: set<char>)
    ensures forall k :: 0 <= k < |Words(s, blanks, ops)| ==> IsWord(Words(s, blanks, ops)[k], blanks, ops)
    decreases |s|
  {
    if |s| > 0 {
      if s[0] in blanks || s[0] in ops {
        WordsShape(s[1..], blanks, ops);
      } else {
        WordsShape(s[FieldEnd(s, 0, blanks + ops)..], blanks, ops);
      }
    }
  }

  /** The words hold exactly the non-blank characters of s, in order. */
  lemma {:induction false} WordsConcat(s: string, blanks: set<char>, ops: set<char>)
    ensures Concat(Words(s, blanks, ops)) == RemoveSeps(s, blanks)
    decreases |s|
  {
    if |s| > 0 {
      if s[0] in blanks {
        WordsConcat(s[1..], blanks, ops);
      } else if s[0] in ops {
        WordsConcat(s[1..], blanks, ops);
        assert ([[s[0]]] + Words(s[1..], blanks, ops))[1..] == Words(s[1..], blanks, ops);
      } else {
        var e := FieldEnd(s, 0, blanks + ops);
        var rest := Words(s[e..], blanks, ops);
        WordsConcat(s[e..], blanks, ops);
        assert ([s[..e]] + rest)[1..] == rest;
        assert s == s[..e] + s[e..];
        RemoveSepsAppend(s[..e], s[e..], blanks);
        RemoveSepsNoSep(s[..e], blanks);
      }
    }
  }

  /** A string that starts with an ordinary word of length e. */
  lemma WordsAt(s: string, e: nat, blanks: set<char>, ops: set<char>)
    requires 0 < e <= |s|
    requires forall k :: 0 <= k < e ==> s[k] !in blanks + ops
    requires e == |s| || s[e] in blanks + ops
    ensures Words(s, blanks, ops) == [s[..e]] + Words(s[e..], blanks, ops)
  {
    FieldEndUnique(s, 0, e, blanks + ops);
  }

  /** A string that starts with a blank or an operator. */
  lemma WordsHead(c: char, b: string, blanks: set<char>, ops: set<char>)
    requires c in blanks + ops
    ensures Words([c] + b, blanks, ops) == (if c in blanks then [] else [[c]]) + Words(b, blanks, ops)
  {
    assert ([c] + b)[1..] == b;
  }

  /** Splitting a string cut next to a blank or an operator is splitting
      the two halves separately. */
  lemma {:induction false} WordsAppend(a: string, b: string, blanks: set<char>, ops: set<char>)
    requires |a| == 0 || |b| == 0 || a[|a| - 1] in blanks + ops || b[0] in blanks + ops
    ensures Words(a + b, blanks, ops) == Words(a, blanks, ops) + Words(b, blanks, ops)
    decreases |a|
  {
    if |a| == 0 {
      assert a + b == b;
    } else if a[0] in blanks + ops {
      WordsAppend(a[1..], b, blanks, ops);
      WordsAppendStop(a, b, blanks, ops);
    } else {
      var e := FieldEnd(a, 0, blanks + ops);
      if e < |a| {
        WordsAppend(a[e..], b, blanks, ops);
      }
      WordsAppendRun(a, b, e, blanks, ops);
    }
  }

  /** The step of WordsAppend for a string that starts with a blank or an
      operator. */
  lemma WordsAppendStop(a: string, b: string, blanks: set<char>, ops: set<char>)
    requires |a| > 0 && a[0] in blanks + ops
    requires Words(a[1..] + b, blanks, ops) == Words(a[1..], blanks, ops) + Words(b, blanks, ops)
    ensures Words(a + b, blanks, ops) == Words(a, blanks, ops) + Words(b, blanks, ops)
  {
    var pre: seq<string> := if a[0] in blanks then [] else [[a[0]]];
    assert a == [a[0]] + a[1..];
    assert a + b == [a[0]] + (a[1..] + b);
    WordsHead(a[0], a[1..], blanks, ops);
    WordsHead(a[0], a[1..] + b, blanks, ops);
    PrefixAssoc(pre, Words(a[1..], blanks, ops), Words(b, blanks, ops));
  }

  lemma PrefixAssoc(pre: seq<string>, x: seq<string>, y: seq<string>)
    ensures pre + (x + y) == (pre + x) + y
  {
  }

  /** The step of WordsAppend for a string that starts with an ordinary
      word ending at e. */
  lemma WordsAppendRun(a: string, b: string, e: nat, blanks: set<char>, ops: set<char>)
    requires |a| > 0 && a[0] !in blanks + ops && e == FieldEnd(a, 0, blanks + ops)
    requires e < |a| || |b| == 0 || b[0] in blanks + ops
    requires e < |a| ==> Words(a[e..] + b, blanks, ops) == Words(a[e..], blanks, ops) + Words(b, blanks, ops)
    ensures Words(a + b, blanks, ops) == Words(a, blanks, ops) + Words(b, blanks, ops)
  {
    WordsAt(a, e, blanks, ops);
    WordsAppendWord(a, b, e, blanks, ops);
    var x, y := Words(a[e..], blanks, ops), Words(b, blanks, ops);
    if e == |a| {
      assert a[e..] == [];
      assert a[e..] + b == b;
      assert x == [];
      assert [a[..e]] + x == [a[..e]];
    } else {
      assert Words(a[e..] + b, blanks, ops) == x + y;
      PrefixAssoc([a[..e]], x, y);
    }
  }

  /** The first word of a + b is the first word of a when that word ends
      inside a, or when a + b is cut right after it. */
  lemma WordsAppendWord(a: string, b: string, e: nat, blanks: set<char>, ops: set<char>)
    requires 0 < e <= |a|
    requires forall k :: 0 <= k < e ==> a[k] !in blanks + ops
    requires if e < |a| then a[e] in blanks + ops else |b| == 0 || b[0] in blanks + ops
    ensures Words(a + b, blanks, ops) == [a[..e]] + Words(a[e..] + b, blanks, ops)
  {
    WordPrefixOfAppend(a, b, e, blanks + ops);
    WordsAt(a + b, e, blanks, ops);
    SliceOfAppend(a, b, e);
  }

  lemma WordPrefixOfAppend(a: string, b: string, e: nat, stops: set<char>)
    requires 0 < e <= |a|
    requires forall k :: 0 <= k < e ==> a[k] !in stops
    requires if e < |a| then a[e] in stops else |b| == 0 || b[0] in stops
    ensures forall k :: 0 <= k < e ==> (a + b)[k] !in stops
    ensures e == |a + b| || (a + b)[e] in stops
  {
    assert forall k :: 0 <= k < e ==> (a + b)[k] == a[k];
  }

  lemma SliceOfAppend(a: string, b: string, e: nat)
    requires e <= |a|
    ensures (a + b)[..e] == a[..e]
    ensures (a + b)[e..] == a[e..] + b
  {
  }

  /** A lone operator, standing anywhere, is a word of its own. */
  lemma WordsOperator(a: string, c: char, b: string, blanks: set<char>, ops: set<char>)
    requires c in ops && c !in blanks
    ensures Words(a + [c] + b, blanks, ops) == Words(a, blanks, ops) + [[c]] + Words(b, blanks, ops)
  {
    WordsAppend(a, [c], blanks, ops);
    WordsAppend(a + [c], b, blanks, ops);
    WordsHead(c, [], blanks, ops);
    assert [c] + [] == [c];
  }

  /** A single word splits into itself. */
  lemma WordsOne(w: string, blanks: set<char>, ops: set<char>)
    requires blanks !! ops && IsWord(w, blanks, ops)
    ensures Words(w, blanks, ops) == [w]
  {
    if |w| == 1 && w[0] in ops {
      assert w[0] !in blanks;
      assert w[1..] == [];
      assert [w[0]] == w;
    } else {
      WordsAt(w, |w|, blanks, ops);
      assert w[..|w|] == w;
      assert w[|w|..] == [];
    }
  }

  /** Words written with one blank between neighbours split back into
      exactly those words. */
  lemma {:induction false} WordsJoin(ws: seq<string>, c: char, blanks: set<char>, ops: set<char>)
    requires c in blanks && blanks !! ops
    requires forall k :: 0 <= k < |ws| ==> IsWord(ws[k], blanks, ops)
    ensures Words(JoinWith(ws, c), blanks, ops) == ws
    decreases |ws|
  {
    if |ws| == 1 {
      WordsOne(ws[0], blanks, ops);
    } else if |ws| > 1 {
      var rest := JoinWith(ws[1..], c);
      assert JoinWith(ws, c) == ws[0] + ([c] + rest);
      WordsAppend(ws[0], [c] + rest, blanks, ops);
      WordsHead(c, rest, blanks, ops);
      WordsOne(ws[0], blanks, ops);
      WordsJoin(ws[1..], c, blanks, ops);
      assert [ws[0]] + ws[1..] == ws;
    }
  }

  /** A run of blanks holds no word. */
  lemma {:induction false} BlankWords(s: string, blanks: set<char>, ops: set<char>)
    requires AllSep(s, blanks)
    ensures Words(s, blanks, ops) == []
    decreases |s|
  {
    if |s| > 0 {
      BlankWords(s[1..], blanks, ops);
    }
  }

  /** Blanks around a string add no word. */
  lemma WordsPadded(p: string, m: string, q: string, blanks: set<char>, ops: set<char>)
    requires AllSep(p, blanks) && AllSep(q, blanks)
    ensures Words(p + (m + q), blanks, ops) == Words(m, blanks, ops)
  {
    BlankWords(p, blanks, ops);
    BlankWords(q, blanks, ops);
    WordsAppend(m, q, blanks, ops);
    assert |p| > 0 ==> p[|p| - 1] in blanks;
    WordsAppend(p, m + q, blanks, ops);
  }

  /** An operator word comes only from that operator character. */
  lemma {:induction false} WordsWithout(s: string, c: char, blanks: set<char>, ops: set<char>)
    requires c in ops
    ensures (forall k :: 0 <= k < |s| ==> s[k] != c) ==>
              forall k :: 0 <= k < |Words(s, blanks, ops)| ==> Words(s, blanks, ops)[k] != [c]
    decreases |s|
  {
    if |s| > 0 {
      if s[0] in blanks || s[0] in ops {
        WordsWithout(s[1..], c, blanks, ops);
      } else {
        var e := FieldEnd(s, 0, blanks + ops);
        WordsWithout(s[e..], c, blanks, ops);
        assert s[..e][0] != c;
      }
    }
  }
}
