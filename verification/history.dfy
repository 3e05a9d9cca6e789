/** The command history of src/history.c: a ring of HistorySize slots, the
    number of stored commands (saturating at HistorySize) and the slot the
    next command goes into. */
module CommandHistory {
  import opened Wrappers
  import opened Limits

  datatype History = History(buf: seq<Option<string>>, count: int, next: int)

  /** The shape every reachable history has. */
  predicate Valid(h: History)
  {
    |h.buf| == HistorySize && 0 <= h.count <= HistorySize && 0 <= h.next < HistorySize
  }

  /** A ring with every slot empty. */
  function EmptyRing(): (r: seq<Option<string>>)
    ensures |r| == HistorySize && forall i :: 0 <= i < |r| ==> r[i] == None
  {
    seq(HistorySize, _ => None)
  }

  /** The history as the program starts: static storage is all zero. */
  const Initial: History := History(EmptyRing(), 0, 0)

  /** init_history: every slot emptied; the two counters are left as they are. */
  function InitHistory(h: History): (r: History)
    requires Valid(h)
    ensures Valid(r)
    ensures r.count == h.count && r.next == h.next
    ensures forall i :: 0 <= i < HistorySize ==> r.buf[i] == None
  {
    History(EmptyRing(), h.count, h.next)
  }

  /** free_history: every slot emptied and both counters back to 0. */
  function FreeHistory(h: History): (r: History)
    ensures r == Initial
  {
    History(EmptyRing(), 0, 0)
  }

  /** Commands add_history_cmd stores: anything but NULL and "". */
  predicate Accepted(cmd: Option<string>)
  {
    cmd.Some? && cmd.value != ""
  }

  /** add_history_cmd(cmd): a NULL or empty command is ignored; otherwise it
      overwrites the slot `next`, `next` advances modulo HistorySize and the
      count grows until it reaches HistorySize. */
  function AddHistory(h: History, cmd: Option<string>): (r: History)
    requires Valid(h)
    ensures Valid(r)
    ensures !Accepted(cmd) ==> r == h
    ensures Accepted(cmd) ==> r.count == Min(h.count + 1, HistorySize)
    ensures Accepted(cmd) ==> r.next == (h.next + 1) % HistorySize
    ensures Accepted(cmd) ==> r.buf[h.next] == cmd
    ensures Accepted(cmd) ==> forall i :: 0 <= i < HistorySize && i != h.next ==> r.buf[i] == h.buf[i]
  {
    if !Accepted(cmd) then h
    else
      History(h.buf[h.next := cmd],
              if h.count < HistorySize then h.count + 1 else h.count,
              (h.next + 1) % HistorySize)
  }

  /** The slot of the oldest stored command. */
  function Start(h: History): (s: int)
    requires Valid(h)
    ensures 0 <= s < HistorySize
    ensures (s + h.count) % HistorySize == h.next
  {
    (h.next - h.count + HistorySize) % HistorySize
  }

  /** print_history: the stored commands numbered 1..count, oldest first;
      the empty listing is printed as "No history.". */
  function ListHistory(h: History): (r: seq<Option<string>>)
    requires Valid(h)
    ensures |r| == h.count
  {
    seq(h.count, i requires 0 <= i < h.count => h.buf[(Start(h) + i) % HistorySize])
  }

  /** get_history_cmd_by_number(n): the n-th oldest stored command, or None
      for a number outside 1..count or an empty slot. */
  function GetHistory(h: History, n: int): (r: Option<string>)
    requires Valid(h)
    ensures n <= 0 || n > h.count ==> r.None?
  {
    if n <= 0 || n > h.count then None
    else h.buf[(Start(h) + (n - 1)) % HistorySize]
  }

  // ---------------------------------------------------------------------
  // Properties

  /** Lookup by number agrees with the listing. */
  lemma GetIsListed(h: History, n: int)
    requires Valid(h) && 1 <= n <= h.count
    ensures GetHistory(h, n) == ListHistory(h)[n - 1]
  {
  }

  /** After free_history nothing is listed and no number finds a command. */
  lemma FreeForgetsAll(h: History, n: int)
    ensures ListHistory(FreeHistory(h)) == []
    ensures GetHistory(FreeHistory(h), n).None?
  {
  }

  /** init_history on a history that already holds commands keeps their
      count, so the listing keeps its length but every entry is empty and
      no number finds a command. */
  lemma InitEmptiesEntries(h: History, n: int)
    requires Valid(h)
    ensures |ListHistory(InitHistory(h))| == h.count
    ensures forall k :: 0 <= k < h.count ==> ListHistory(InitHistory(h))[k].None?
    ensures GetHistory(InitHistory(h), n).None?
  {
  }

  /** The last command added is the newest one listed and has number count. */
  lemma GetNewest(h: History, cmd: Option<string>)
    requires Valid(h) && Accepted(cmd)
    ensures var h' := AddHistory(h, cmd); GetHistory(h', h'.count) == cmd
  {
    var h' := AddHistory(h, cmd);
    assert (Start(h') + (h'.count - 1)) % HistorySize == h.next by {
      NextBefore(h, h');
    }
  }

  lemma NextBefore(h: History, h': History)
    requires Valid(h) && Valid(h') && h'.next == (h.next + 1) % HistorySize && h'.count > 0
    ensures (Start(h') + (h'.count - 1)) % HistorySize == h.next
  {
    var s := Start(h');
    assert (s + h'.count) % HistorySize == h'.next;
    ModPred(s + h'.count, h'.next, h.next);
  }

  /** Stepping back one position on the ring. */
  lemma ModPred(x: int, a: int, b: int)
    requires x >= 1 && 0 <= a < HistorySize && 0 <= b < HistorySize
    requires x % HistorySize == a && a == (b + 1) % HistorySize
    ensures (x - 1) % HistorySize == b
  {
    var q := x / HistorySize;
    assert x == q * HistorySize + a;
    if b < HistorySize - 1 {
      assert x - 1 == q * HistorySize + b;
    } else {
      assert q >= 1;
      assert x - 1 == (q - 1) * HistorySize + b;
    }
  }

  /** How the listing changes when a command is added: the command goes at
      the end, and once the ring is full the oldest entry drops out. */
  lemma ListAfterAdd(h: History, cmd: Option<string>)
    requires Valid(h) && Accepted(cmd)
    ensures h.count < HistorySize ==> ListHistory(AddHistory(h, cmd)) == ListHistory(h) + [cmd]
    ensures h.count == HistorySize ==> ListHistory(AddHistory(h, cmd)) == ListHistory(h)[1..] + [cmd]
  {
    if h.count < HistorySize {
      ListAfterAddGrowing(h, cmd);
    } else {
      ListAfterAddFull(h, cmd);
    }
  }

  lemma ListAfterAddGrowing(h: History, cmd: Option<string>)
    requires Valid(h) && Accepted(cmd) && h.count < HistorySize
    ensures ListHistory(AddHistory(h, cmd)) == ListHistory(h) + [cmd]
  {
    var h' := AddHistory(h, cmd);
    var before := ListHistory(h);
    var after := ListHistory(h');
    var s := Start(h);
    SameStart(h, h');
    forall i | 0 <= i < h.count
      ensures after[i] == before[i]
    {
      SlotBeforeNext(s, i, h.count, h.next);
    }
    assert after[h.count] == cmd by {
      NextBefore(h, h');
    }
    assert after == before + [cmd];
  }

  lemma ListAfterAddFull(h: History, cmd: Option<string>)
    requires Valid(h) && Accepted(cmd) && h.count == HistorySize
    ensures ListHistory(AddHistory(h, cmd)) == ListHistory(h)[1..] + [cmd]
  {
    var h' := AddHistory(h, cmd);
    var before := ListHistory(h);
    var after := ListHistory(h');
    assert Start(h') == h'.next && Start(h) == h.next;
    forall i | 0 <= i < HistorySize - 1
      ensures after[i] == before[i + 1]
    {
      RingShift(h.next, i);
    }
    assert after[HistorySize - 1] == cmd by {
      NextBefore(h, h');
    }
    assert after == before[1..] + [cmd];
  }

  /** Adding to a history that is not full keeps the oldest slot. */
  lemma SameStart(h: History, h': History)
    requires Valid(h) && Valid(h') && h.count < HistorySize
    requires h'.count == h.count + 1 && h'.next == (h.next + 1) % HistorySize
    ensures Start(h') == Start(h)
  {
  }

  /** A stored slot other than the newest is never the slot `next`. */
  lemma SlotBeforeNext(s: int, i: int, count: int, next: int)
    requires 0 <= s < HistorySize && 0 <= i < count < HistorySize
    requires (s + count) % HistorySize == next
    ensures (s + i) % HistorySize != next
  {
  }

  /** In a full ring the slots after `next` hold the older entries in turn. */
  lemma RingShift(next: int, i: int)
    requires 0 <= next < HistorySize && 0 <= i < HistorySize - 1
    ensures ((next + 1) % HistorySize + i) % HistorySize == (next + (i + 1)) % HistorySize
    ensures (next + (i + 1)) % HistorySize != next
  {
  }

  /** The commands of cmds that add_history_cmd keeps, in order. */
  function AcceptedOnly(cmds: seq<Option<string>>): (r: seq<Option<string>>)
    ensures forall k :: 0 <= k < |r| ==> Accepted(r[k])
  {
    if |cmds| == 0 then []
    else AcceptedOnly(cmds[..|cmds| - 1]) + (if Accepted(cmds[|cmds| - 1]) then [cmds[|cmds| - 1]] else [])
  }

  /** The last n elements of s (all of s when it is shorter). */
  function LastN<T>(s: seq<T>, n: nat): (r: seq<T>)
    ensures |r| == Min(|s|, n)
  {
    if |s| <= n then s else s[|s| - n..]
  }

  /** Adding the commands of cmds one by one. */
  function AddAll(h: History, cmds: seq<Option<string>>): (r: History)
    requires Valid(h)
    ensures Valid(r)
    decreases |cmds|
  {
    if |cmds| == 0 then h else AddHistory(AddAll(h, cmds[..|cmds| - 1]), cmds[|cmds| - 1])
  }

  /** Starting from an empty history, the listing always holds the last
      min(k, HistorySize) of the k accepted commands, oldest first. */
  lemma {:induction false} ListIsLastAccepted(cmds: seq<Option<string>>)
    ensures ListHistory(AddAll(Initial, cmds)) == LastN(AcceptedOnly(cmds), HistorySize)
    decreases |cmds|
  {
    if |cmds| > 0 {
      var init := cmds[..|cmds| - 1];
      var c := cmds[|cmds| - 1];
      ListIsLastAccepted(init);
      if Accepted(c) {
        var h := AddAll(Initial, init);
        ListAfterAdd(h, c);
        LastNAppend(AcceptedOnly(init), c, HistorySize);
      }
    }
  }

  lemma LastNAppend<T>(s: seq<T>, x: T, n: nat)
    requires n > 0
    ensures |s| < n ==> LastN(s + [x], n) == LastN(s, n) + [x]
    ensures |s| >= n ==> LastN(s + [x], n) == LastN(s, n)[1..] + [x]
  {
    if |s| >= n {
      assert (s + [x])[|s| + 1 - n..] == s[|s| - n..][1..] + [x];
    }
  }

  /** Entries are numbered from 1 for the oldest: after k accepted commands
      (k at most HistorySize) number n is the n-th of them. */
  lemma GetNumbered(cmds: seq<Option<string>>, n: int)
    requires |AcceptedOnly(cmds)| <= HistorySize && 1 <= n <= |AcceptedOnly(cmds)|
    ensures GetHistory(AddAll(Initial, cmds), n) == AcceptedOnly(cmds)[n - 1]
  {
    ListIsLastAccepted(cmds);
    GetIsListed(AddAll(Initial, cmds), n);
  }
}
