/** Splitting a string into its maximal runs of non-separator characters.
    strtok(3) splits a command line on "|" this way, and the tokenizer
    splits a command on blanks the same way. */
module FieldSplit {

  /** No character of w is a separator. */
  predicate NoSep(w: string, seps: set<char>)
  {
    forall i :: 0 <= i < |w| ==> w[i] !in seps
  }

  /** Every character of w is a separator. */
  predicate AllSep(w: string, seps: set<char>)
  {
    forall i :: 0 <= i < |w| ==> w[i] in seps
  }

  /** The first position at or after i that holds a non-separator, or |s|. */
  function SkipSeps(s: string, i: nat, seps: set<char>): (j: nat)
    requires i <= |s|
    ensures i <= j <= |s|
    ensures forall k :: i <= k < j ==> s[k] in seps
    ensures j == |s| || s[j] !in seps
    decreases |s| - i
  {
    if i == |s| || s[i] !in seps then i else SkipSeps(s, i + 1, seps)
  }

  /** The first position at or after i that holds a separator, or |s|. */
  function FieldEnd(s: string, i: nat, seps: set<char>): (j: nat)
    requires i <= |s|
    ensures i <= j <= |s|
    ensures forall k :: i <= k < j ==> s[k] !in seps
    ensures j == |s| || s[j] in seps
    decreases |s| - i
  {
    if i == |s| || s[i] in seps then i else FieldEnd(s, i + 1, seps)
  }

  /** The maximal runs of non-separator characters of s, in order. */
  function Fields(s: string, seps: set<char>): seq<string>
    decreases |s|
  {
    if |s| == 0 then []
    else if s[0] in seps then Fields(s[1..], seps)
    else
      var e := FieldEnd(s, 0, seps);
      [s[..e]] + Fields(s[e..], seps)
  }

  /** Every field is non-empty and free of separators. */
  lemma {:induction false} FieldsShape(s: string, seps: set<char>)
    ensures forall k :: 0 <= k < |Fields(s, seps)| ==>
              |Fields(s, seps)[k]| > 0 && NoSep(Fields(s, seps)[k], seps)
    decreases |s|
  {
    if |s| > 0 {
      if s[0] in seps {
        FieldsShape(s[1..], seps);
      } else {
        FieldsShape(s[FieldEnd(s, 0, seps)..], seps);
      }
    }
  }

  /** The strings of ws written one after the other. */
  function Concat(ws: seq<string>): string
  {
    if |ws| == 0 then "" else ws[0] + Concat(ws[1..])
  }

  /** s with every separator character deleted. */
  function RemoveSeps(s: string, seps: set<char>): string
  {
    if |s| == 0 then ""
    else (if s[0] in seps then "" else [s[0]]) + RemoveSeps(s[1..], seps)
  }

  /** The strings of ws with the character c between neighbours. */
  function JoinWith(ws: seq<string>, c: char): string
  {
    if |ws| == 0 then ""
    else if |ws| == 1 then ws[0]
    else ws[0] + ([c] + JoinWith(ws[1..], c))
  }

  /** Number of positions of s that begin a run of non-separators:
      a non-separator that comes first or right after a separator.
      `afterSep` tells whether the character before s was a separator
      (true at the start of the line). */
  function RunStarts(s: string, seps: set<char>, afterSep: bool): nat
  {
    if |s| == 0 then 0
    else (if s[0] !in seps && afterSep then 1 else 0) + RunStarts(s[1..], seps, s[0] in seps)
  }

  // ---------------------------------------------------------------------
  // Helper facts

  /** FieldEnd is the only position with its two defining properties. */
  lemma FieldEndUnique(s: string, i: nat, j: nat, seps: set<char>)
    requires i <= j <= |s|
    requires forall k :: i <= k < j ==> s[k] !in seps
    requires j == |s| || s[j] in seps
    ensures FieldEnd(s, i, seps) == j
  {
  }

  /** Appending text after a field that already ended does not move its end. */
  lemma FieldEndAppend(a: string, b: string, i: nat, seps: set<char>)
    requires i <= |a|
    ensures FieldEnd(a, i, seps) < |a| ==> FieldEnd(a + b, i, seps) == FieldEnd(a, i, seps)
    ensures FieldEnd(a, i, seps) == |a| && (|b| == 0 || b[0] in seps) ==> FieldEnd(a + b, i, seps) == |a|
  {
    var j := FieldEnd(a, i, seps);
    if j < |a| || |b| == 0 || b[0] in seps {
      assert forall k :: i <= k < j ==> (a + b)[k] == a[k];
      FieldEndUnique(a + b, i, j, seps);
    }
  }

  lemma ConcatAppend(a: seq<string>, b: seq<string>)
    ensures Concat(a + b) == Concat(a) + Concat(b)
  {
    if |a| == 0 {
      assert a + b == b;
    } else {
      assert (a + b)[1..] == a[1..] + b;
      ConcatAppend(a[1..], b);
    }
  }

  lemma RemoveSepsAppend(a: string, b: string, seps: set<char>)
    ensures RemoveSeps(a + b, seps) == RemoveSeps(a, seps) + RemoveSeps(b, seps)
  {
    if |a| == 0 {
      assert a + b == b;
    } else {
      assert (a + b)[1..] == a[1..] + b;
      RemoveSepsAppend(a[1..], b, seps);
    }
  }

  lemma RemoveSepsNoSep(w: string, seps: set<char>)
    requires NoSep(w, seps)
    ensures RemoveSeps(w, seps) == w
  {
    if |w| > 0 {
      RemoveSepsNoSep(w[1..], seps);
    }
  }

  // ---------------------------------------------------------------------
  // What Fields means

  /** A non-empty separator-free string is a single field. */
  lemma FieldsSingle(w: string, seps: set<char>)
    requires |w| > 0 && NoSep(w, seps)
    ensures Fields(w, seps) == [w]
  {
    FieldEndUnique(w, 0, |w|, seps);
    assert w[..|w|] == w;
    assert w[|w|..] == [];
  }

  /** Splitting a string that is cut at a separator boundary is splitting
      the two halves separately. */
  lemma {:induction false} FieldsAppend(a: string, b: string, seps: set<char>)
    requires |a| == 0 || a[|a| - 1] in seps || |b| == 0 || b[0] in seps
    ensures Fields(a + b, seps) == Fields(a, seps) + Fields(b, seps)
    decreases |a|
  {
    if |a| == 0 {
      assert a + b == b;
    } else if a[0] in seps {
      assert (a + b)[1..] == a[1..] + b;
      FieldsAppend(a[1..], b, seps);
    } else {
      var e := FieldEnd(a, 0, seps);
      FieldEndAppend(a, b, 0, seps);
      if e < |a| {
        assert (a + b)[..e] == a[..e];
        assert (a + b)[e..] == a[e..] + b;
        FieldsAppend(a[e..], b, seps);
      } else {
        assert a[|a| - 1] !in seps;
        assert (a + b)[..|a|] == a;
        assert (a + b)[|a|..] == b;
        assert a[..e] == a;
        assert a[e..] == [];
      }
    }
  }

  /** Separators at either end create no field, and a run of several
      separators splits no more than one separator does. */
  lemma SeparatorRunsCollapse(a: string, b: string, c: char, d: char, seps: set<char>)
    requires c in seps && d in seps
    ensures Fields([c] + b, seps) == Fields(b, seps)
    ensures Fields(a + [c], seps) == Fields(a, seps)
    ensures Fields(a + [c] + [d] + b, seps) == Fields(a + [c] + b, seps)
  {
    FieldsAppend([c], b, seps);
    FieldsAppend(a, [c], seps);
    assert Fields([c], seps) == Fields([c][1..], seps) == [];
    FieldsAppend([d], b, seps);
    FieldsAppend(a + [c], [d] + b, seps);
    FieldsAppend(a + [c], b, seps);
    assert a + [c] + [d] + b == (a + [c]) + ([d] + b);
  }

  /** Gluing fields back together with one separator gives back the fields. */
  lemma {:induction false} FieldsJoin(ws: seq<string>, c: char, seps: set<char>)
    requires c in seps
    requires forall k :: 0 <= k < |ws| ==> |ws[k]| > 0 && NoSep(ws[k], seps)
    ensures Fields(JoinWith(ws, c), seps) == ws
    decreases |ws|
  {
    if |ws| == 1 {
      FieldsSingle(ws[0], seps);
    } else if |ws| > 1 {
      var rest := JoinWith(ws[1..], c);
      FieldsAppend(ws[0], [c] + rest, seps);
      FieldsAppend([c], rest, seps);
      assert Fields([c], seps) == [];
      FieldsSingle(ws[0], seps);
      FieldsJoin(ws[1..], c, seps);
      assert [ws[0]] + ws[1..] == ws;
    }
  }

  /** The fields hold exactly the non-separator characters, in order. */
  lemma {:induction false} FieldsConcat(s: string, seps: set<char>)
    ensures Concat(Fields(s, seps)) == RemoveSeps(s, seps)
    decreases |s|
  {
    if |s| > 0 {
      if s[0] in seps {
        FieldsConcat(s[1..], seps);
      } else {
        var e := FieldEnd(s, 0, seps);
        var rest := Fields(s[e..], seps);
        FieldsConcat(s[e..], seps);
        assert ([s[..e]] + rest)[1..] == rest;
        assert Concat([s[..e]] + rest) == s[..e] + Concat(rest);
        assert s == s[..e] + s[e..];
        RemoveSepsAppend(s[..e], s[e..], seps);
        RemoveSepsNoSep(s[..e], seps);
      }
    }
  }

  /** Inside a run, counting run starts from any later position of the run
      gives the count from the run's end. */
  lemma {:induction false} RunStartsInsideRun(s: string, k: nat, e: nat, seps: set<char>)
    requires 1 <= k <= e <= |s|
    requires forall i :: 0 <= i < e ==> s[i] !in seps
    requires e == |s| || s[e] in seps
    ensures RunStarts(s[k..], seps, false) == RunStarts(s[e..], seps, true)
    decreases e - k
  {
    if k < e {
      assert s[k..][1..] == s[k + 1..];
      RunStartsInsideRun(s, k + 1, e, seps);
    } else if e < |s| {
      assert s[e..][1..] == s[e + 1..];
    }
  }

  /** The number of fields is the number of positions where a run of
      non-separators starts. */
  lemma {:induction false} FieldsCount(s: string, seps: set<char>)
    ensures |Fields(s, seps)| == RunStarts(s, seps, true)
    decreases |s|
  {
    if |s| > 0 {
      if s[0] in seps {
        FieldsCount(s[1..], seps);
      } else {
        var e := FieldEnd(s, 0, seps);
        FieldsCount(s[e..], seps);
        RunStartsInsideRun(s, 1, e, seps);
      }
    }
  }

  /** Skipping separators does not change the fields that follow. */
  lemma {:induction false} FieldsSkip(s: string, i: nat, seps: set<char>)
    requires i <= |s|
    ensures Fields(s[i..], seps) == Fields(s[SkipSeps(s, i, seps)..], seps)
    decreases |s| - i
  {
    if i < |s| && s[i] in seps {
      assert s[i..][1..] == s[i + 1..];
      FieldsSkip(s, i + 1, seps);
    }
  }

  /** The fields of a suffix that starts on a non-separator begin with the
      run at that position. */
  lemma FieldsAt(s: string, i: nat, seps: set<char>)
    requires i < |s| && s[i] !in seps
    ensures Fields(s[i..], seps)
         == [s[i..FieldEnd(s, i, seps)]] + Fields(s[FieldEnd(s, i, seps)..], seps)
  {
    var e := FieldEnd(s, i, seps);
    assert s[i..] == s[i..e] + s[e..];
    assert NoSep(s[i..e], seps);
    FieldsSingle(s[i..e], seps);
    FieldsAppend(s[i..e], s[e..], seps);
  }

  /** The fields from position i on begin with the run that follows the
      separators at i. */
  lemma FieldsNext(s: string, i: nat, seps: set<char>)
    requires i <= |s| && SkipSeps(s, i, seps) < |s|
    ensures var start := SkipSeps(s, i, seps);
            var stop := FieldEnd(s, start, seps);
            Fields(s[i..], seps) == [s[start..stop]] + Fields(s[stop..], seps)
  {
    FieldsSkip(s, i, seps);
    FieldsAt(s, SkipSeps(s, i, seps), seps);
  }
}
