/** The shell variables of src/vars.c: a list of name/value pairs, newest
    name first, and the expansion of "$NAME" and "${NAME}" arguments. */
module Vars {
  import opened Wrappers

  datatype Var = Var(name: string, value: string)

  /** The variable list, head first. */
  type Store = seq<Var>

  predicate IsAsciiLetter(c: char)
  {
    ('a' <= c <= 'z') || ('A' <= c <= 'Z')
  }

  /** The only name check set_var makes: the first character is a letter
      or '_' (an empty name fails, its first byte being the terminator). */
  predicate NameAccepted(name: string)
  {
    |name| > 0 && (IsAsciiLetter(name[0]) || name[0] == '_')
  }

  /** No name occurs twice in the store. */
  predicate UniqueNames(st: Store)
  {
    forall i, j :: 0 <= i < j < |st| ==> st[i].name != st[j].name
  }

  predicate Defined(st: Store, name: string)
  {
    exists i :: 0 <= i < |st| && st[i].name == name
  }

  /** The position of the first entry named name, if any. */
  function Lookup(st: Store, name: string, i: nat): (r: Option<nat>)
    requires i <= |st|
    ensures r.Some? ==> i <= r.value < |st| && st[r.value].name == name
    ensures r.Some? ==> forall k :: i <= k < r.value ==> st[k].name != name
    ensures r.None? ==> forall k :: i <= k < |st| ==> st[k].name != name
    decreases |st| - i
  {
    if i == |st| then None
    else if st[i].name == name then Some(i)
    else Lookup(st, name, i + 1)
  }

  /** set_var(name, value): a NULL or rejected name leaves the store alone;
      an existing name gets the new value in place; a new name is put at
      the head. A NULL value is stored as "". */
  function SetVar(st: Store, name: Option<string>, value: Option<string>): (r: Store)
    ensures name.None? || !NameAccepted(name.value) ==> r == st
    ensures name.Some? && NameAccepted(name.value) && !Defined(st, name.value) ==>
              r == [Var(name.value, value.GetOr(""))] + st
    ensures name.Some? && NameAccepted(name.value) && Defined(st, name.value) ==>
              && |r| == |st|
              && (forall k :: 0 <= k < |st| ==> r[k].name == st[k].name)
              && (forall k :: 0 <= k < |st| && st[k].name != name.value ==> r[k] == st[k])
    ensures name.Some? && NameAccepted(name.value) && Defined(st, name.value) ==>
              exists i :: && 0 <= i < |st| && st[i].name == name.value
                          && (forall k :: 0 <= k < i ==> st[k].name != name.value)
                          && r == st[i := Var(name.value, value.GetOr(""))]
  {
    if name.None? || !NameAccepted(name.value) then st
    else
      match Lookup(st, name.value, 0)
      case Some(i) => st[i := Var(name.value, value.GetOr(""))]
      case None => [Var(name.value, value.GetOr(""))] + st
  }

  /** get_var(name): the value of the first entry with that name, or None
      for a NULL name or a name not in the store. */
  function GetVar(st: Store, name: Option<string>): (r: Option<string>)
    ensures name.None? ==> r.None?
    ensures name.Some? ==> (r.Some? <==> Defined(st, name.value))
    ensures r.Some? ==> exists i :: 0 <= i < |st| && st[i] == Var(name.value, r.value)
  {
    if name.None? then None
    else
      match Lookup(st, name.value, 0)
      case Some(i) => Some(st[i].value)
      case None => None
  }

  /** print_vars: one "name=value" line per entry, head first; the empty
      listing is printed as "No variables defined.". */
  function PrintVars(st: Store): (r: seq<string>)
    ensures |r| == |st|
  {
    seq(|st|, k requires 0 <= k < |st| => st[k].name + "=" + st[k].value)
  }

  /** The store as a finite map from names to values. */
  function ToMap(st: Store): map<string, string>
    decreases |st|
  {
    if |st| == 0 then map[] else ToMap(st[1..])[st[0].name := st[0].value]
  }

  // ---------------------------------------------------------------------
  // Expansion

  /** The first position at or after i that holds c, if any (strchr). */
  function FindChar(s: string, c: char, i: nat): (r: Option<nat>)
    requires i <= |s|
    ensures r.Some? ==> i <= r.value < |s| && s[r.value] == c
    ensures r.Some? ==> forall k :: i <= k < r.value ==> s[k] != c
    ensures r.None? ==> forall k :: i <= k < |s| ==> s[k] != c
    decreases |s| - i
  {
    if i == |s| then None
    else if s[i] == c then Some(i)
    else FindChar(s, c, i + 1)
  }

  /** The variable name an argument refers to: None when the argument is
      left alone (it does not start with '$', or it starts with "${" and
      has no '}' after that), else the characters between "${" and the
      first '}', or everything after a lone '$'. */
  function ReferencedName(a: string): (r: Option<string>)
    ensures (|a| == 0 || a[0] != '$') ==> r.None?
    ensures |a| > 0 && a[0] == '$' && !(|a| > 1 && a[1] == '{') ==> r == Some(a[1..])
  {
    if |a| == 0 || a[0] != '$' then None
    else if |a| > 1 && a[1] == '{' then
      match FindChar(a, '}', 2)
      case None => None
      case Some(e) => Some(a[2..e])
    else Some(a[1..])
  }

  /** The expansion of one argument: its variable's value, "" for an
      undefined variable, or the argument itself when it names none. */
  function ExpandArg(st: Store, a: string): (r: string)
  {
    match ReferencedName(a)
    case None => a
    case Some(n) => GetVar(st, Some(n)).GetOr("")
  }

  /** expand_argv_inplace(argv): every argument expanded, none added or
      removed; a NULL vector stays NULL. */
  function ExpandArgv(st: Store, argv: Option<seq<string>>): (r: Option<seq<string>>)
    ensures argv.None? <==> r.None?
    ensures r.Some? ==> |r.value| == |argv.value|
    ensures r.Some? ==> forall k :: 0 <= k < |argv.value| && ReferencedName(argv.value[k]).None? ==>
              r.value[k] == argv.value[k]
  {
    match argv
    case None => None
    case Some(args) => Some(seq(|args|, k requires 0 <= k < |args| => ExpandArg(st, args[k])))
  }

  // ---------------------------------------------------------------------
  // Properties

  /** Setting keeps names unique. */
  lemma SetKeepsUnique(st: Store, name: Option<string>, value: Option<string>)
    requires UniqueNames(st)
    ensures UniqueNames(SetVar(st, name, value))
  {
  }

  /** In a store with unique names, get_var reads the map the store denotes. */
  lemma {:induction false} GetIsMapLookup(st: Store, name: string)
    requires UniqueNames(st)
    ensures GetVar(st, Some(name)) == if name in ToMap(st) then Some(ToMap(st)[name]) else None
    decreases |st|
  {
    if |st| > 0 {
      GetIsMapLookup(st[1..], name);
      if st[0].name != name {
        GetTail(st, name);
      }
    }
  }

  lemma GetTail(st: Store, name: string)
    requires |st| > 0 && st[0].name != name
    ensures GetVar(st, Some(name)) == GetVar(st[1..], Some(name))
  {
    var r := Lookup(st, name, 0);
    var r' := Lookup(st[1..], name, 0);
    if r.Some? {
      assert st[1..][r.value - 1].name == name;
      assert r'.Some? && r'.value == r.value - 1;
    } else {
      assert r'.None?;
    }
  }

  /** With unique names, set_var updates the denoted map at that name: the
      name then maps to the value set, and every other name keeps its value. */
  lemma SetIsMapUpdate(st: Store, name: string, value: Option<string>)
    requires UniqueNames(st) && NameAccepted(name)
    ensures ToMap(SetVar(st, Some(name), value)) == ToMap(st)[name := value.GetOr("")]
  {
    var v := value.GetOr("");
    if Defined(st, name) {
      var i := Lookup(st, name, 0).value;
      ToMapUpdate(st, i, v);
    }
  }

  /** Replacing the value at the only entry with that name updates the map. */
  lemma {:induction false} ToMapUpdate(st: Store, i: nat, v: string)
    requires UniqueNames(st) && i < |st|
    ensures ToMap(st[i := Var(st[i].name, v)]) == ToMap(st)[st[i].name := v]
    decreases |st|
  {
    var st' := st[i := Var(st[i].name, v)];
    if i == 0 {
      assert st'[1..] == st[1..];
      ToMapOmits(st[1..], st[0].name);
    } else {
      assert st'[1..] == st[1..][i - 1 := Var(st[i].name, v)];
      ToMapUpdate(st[1..], i - 1, v);
    }
  }

  /** A name no entry carries is not in the map. */
  lemma {:induction false} ToMapOmits(st: Store, name: string)
    requires forall k :: 0 <= k < |st| ==> st[k].name != name
    ensures name !in ToMap(st)
    decreases |st|
  {
    if |st| > 0 {
      ToMapOmits(st[1..], name);
    }
  }

  /** get_var returns what set_var stored, and setting one name leaves
      every other name's value as it was. */
  lemma GetAfterSet(st: Store, name: string, value: Option<string>, other: Option<string>)
    requires UniqueNames(st) && NameAccepted(name)
    ensures GetVar(SetVar(st, Some(name), value), Some(name)) == Some(value.GetOr(""))
    ensures other != Some(name) ==> GetVar(SetVar(st, Some(name), value), other) == GetVar(st, other)
  {
    var st' := SetVar(st, Some(name), value);
    SetKeepsUnique(st, Some(name), value);
    SetIsMapUpdate(st, name, value);
    GetIsMapLookup(st', name);
    if other.Some? && other.value != name {
      GetIsMapLookup(st', other.value);
      GetIsMapLookup(st, other.value);
    }
  }

  /** A rejected name changes nothing, so it stays undefined. */
  lemma RejectedNameUnset(st: Store, name: string, value: Option<string>)
    requires !NameAccepted(name) && !Defined(st, name)
    ensures GetVar(SetVar(st, Some(name), value), Some(name)).None?
  {
  }

  /** A new name goes at the head of the listing; setting an existing name
      again rewrites the line of its first entry (the one Lookup finds) to
      "name=value" and leaves every other line where and as it was. */
  lemma ListingAfterSet(st: Store, name: string, value: Option<string>)
    requires NameAccepted(name)
    ensures !Defined(st, name) ==> PrintVars(SetVar(st, Some(name), value)) == [name + "=" + value.GetOr("")] + PrintVars(st)
    ensures Defined(st, name) ==>
              && Lookup(st, name, 0).Some?
              && PrintVars(SetVar(st, Some(name), value))
                   == PrintVars(st)[Lookup(st, name, 0).value := name + "=" + value.GetOr("")]
  {
    var r := SetVar(st, Some(name), value);
    if !Defined(st, name) {
      assert PrintVars(r)[0] == name + "=" + value.GetOr("");
      assert forall k :: 1 <= k < |r| ==> r[k] == st[k - 1];
    } else {
      var j := Lookup(st, name, 0).value;
      assert r == st[j := Var(name, value.GetOr(""))];
      assert PrintVars(r) == PrintVars(st)[j := name + "=" + value.GetOr("")];
    }
  }

  /** Every variable get_var can read is listed by print_vars as a
      "name=value" line carrying the value get_var returns. */
  lemma ListingShowsValues(st: Store, name: string)
    requires Defined(st, name)
    ensures GetVar(st, Some(name)).Some?
    ensures name + "=" + GetVar(st, Some(name)).value in PrintVars(st)
  {
    var i := Lookup(st, name, 0).value;
    assert PrintVars(st)[i] == name + "=" + st[i].value;
  }

  /** "$NAME" expands to the value last set for NAME. */
  lemma ExpandPlain(st: Store, name: string, value: Option<string>)
    requires UniqueNames(st) && NameAccepted(name)
    ensures ExpandArg(SetVar(st, Some(name), value), "$" + name) == value.GetOr("")
  {
    assert ("$" + name)[1..] == name;
    assert ("$" + name)[1] == name[0] != '{';
    GetAfterSet(st, name, value, None);
  }

  /** "${NAME}rest" expands to NAME's value with rest dropped, when NAME
      holds no '}'; an undefined NAME expands to "". */
  lemma ExpandBraced(st: Store, name: string, rest: string)
    requires forall k :: 0 <= k < |name| ==> name[k] != '}'
    ensures ExpandArg(st, "${" + name + "}" + rest) == GetVar(st, Some(name)).GetOr("")
  {
    var a := "${" + name + "}" + rest;
    assert a[0] == '$' && a[1] == '{';
    assert forall k :: 2 <= k < 2 + |name| ==> a[k] == name[k - 2];
    assert a[2 + |name|] == '}';
    assert FindChar(a, '}', 2) == Some(2 + |name|);
    assert a[2..2 + |name|] == name;
  }

  /** "${..." with no closing '}' is left as it is. */
  lemma ExpandUnclosed(st: Store, tail: string)
    requires forall k :: 0 <= k < |tail| ==> tail[k] != '}'
    ensures ExpandArg(st, "${" + tail) == "${" + tail
  {
    var a := "${" + tail;
    assert forall k :: 2 <= k < |a| ==> a[k] == tail[k - 2];
  }

  /** An argument whose variable is undefined expands to "". */
  lemma ExpandUndefined(st: Store, a: string)
    requires ReferencedName(a).Some? && !Defined(st, ReferencedName(a).value)
    ensures ExpandArg(st, a) == ""
  {
  }
}
