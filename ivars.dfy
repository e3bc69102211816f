/** The instance-variable table of a Ruby object, as the record factory uses
    it: an ordered list of (name, value) slots in the order in which each name
    was first assigned on that object, as Ruby 3.2 and later keep it.
    Reassigning a name keeps its position; assigning a new name appends a
    slot. Names are stored without the leading `@`. */
module Ivars {
  import opened Outcomes
  import opened Seqs

  predicate IsNameStart(c: char) {
    ('a' <= c <= 'z') || ('A' <= c <= 'Z') || c == '_' || c as int >= 128
  }

  predicate IsNameChar(c: char) {
    IsNameStart(c) || ('0' <= c <= '9')
  }

  /** `s` is what may follow the `@` of an instance-variable name: a letter,
      an underscore or a non-ASCII character, then those or digits. */
  predicate ValidName(s: string) {
    |s| > 0 && IsNameStart(s[0]) && forall i :: 1 <= i < |s| ==> IsNameChar(s[i])
  }

  datatype Slot<V> = Slot(name: string, value: V)

  function Names<V>(ss: seq<Slot<V>>): seq<string> {
    seq(|ss|, i requires 0 <= i < |ss| => ss[i].name)
  }

  function Values<V>(ss: seq<Slot<V>>): seq<V> {
    seq(|ss|, i requires 0 <= i < |ss| => ss[i].value)
  }

  /** Pairs up names and values position by position. */
  function Zip<V>(ns: seq<string>, vs: seq<V>): seq<Slot<V>>
    requires |ns| == |vs|
  {
    seq(|ns|, i requires 0 <= i < |ns| => Slot(ns[i], vs[i]))
  }

  /** A well-formed table: no name twice, every name legal. */
  predicate WellFormed<V>(ss: seq<Slot<V>>) {
    Distinct(Names(ss)) && forall i :: 0 <= i < |ss| ==> ValidName(ss[i].name)
  }

  /** Reading a variable: its value, or None when it has never been set. */
  function Lookup<V>(ss: seq<Slot<V>>, n: string): Option<V>
    decreases |ss|
  {
    if ss == [] then None
    else if ss[0].name == n then Some(ss[0].value)
    else Lookup(ss[1..], n)
  }

  /** Setting a variable: overwrite the slot of that name, or append one. */
  function Assign<V>(ss: seq<Slot<V>>, n: string, v: V): seq<Slot<V>>
    decreases |ss|
  {
    if ss == [] then [Slot(n, v)]
    else if ss[0].name == n then [Slot(n, v)] + ss[1..]
    else [ss[0]] + Assign(ss[1..], n, v)
  }

  /** Setting the variables of `ps` one after the other, first to last. */
  function AssignAll<V>(ss: seq<Slot<V>>, ps: seq<Slot<V>>): seq<Slot<V>>
    decreases |ps|
  {
    if ps == [] then ss
    else
      var last := ps[|ps| - 1];
      Assign(AssignAll(ss, ps[..|ps| - 1]), last.name, last.value)
  }

  lemma ZipNamesValues<V>(ns: seq<string>, vs: seq<V>)
    requires |ns| == |vs|
    ensures Names(Zip(ns, vs)) == ns && Values(Zip(ns, vs)) == vs
  {
  }

  lemma UnzipZip<V>(ss: seq<Slot<V>>)
    ensures Zip(Names(ss), Values(ss)) == ss
  {
  }

  /** Setting the first slot named `n` overwrites that slot in place. */
  lemma {:induction false} AssignFound<V>(ss: seq<Slot<V>>, n: string, v: V, i: nat)
    requires i < |ss| && ss[i].name == n
    requires forall j :: 0 <= j < i ==> ss[j].name != n
    ensures Assign(ss, n, v) == ss[i := Slot(n, v)]
    decreases |ss|
  {
    if i > 0 {
      AssignFound(ss[1..], n, v, i - 1);
      assert ss[1..][i - 1 := Slot(n, v)] == ss[i := Slot(n, v)][1..];
    }
  }

  /** Setting a name that no slot carries appends exactly one slot. */
  lemma {:induction false} AssignMissing<V>(ss: seq<Slot<V>>, n: string, v: V)
    requires n !in Names(ss)
    ensures Assign(ss, n, v) == ss + [Slot(n, v)]
    decreases |ss|
  {
    if ss != [] {
      assert ss[0].name == Names(ss)[0];
      assert Names(ss[1..]) == Names(ss)[1..];
      AssignMissing(ss[1..], n, v);
      assert ss == [ss[0]] + ss[1..];
    }
  }

  lemma {:induction false} FirstIndex<V>(ss: seq<Slot<V>>, n: string) returns (i: nat)
    requires n in Names(ss)
    ensures i < |ss| && ss[i].name == n
    ensures forall j :: 0 <= j < i ==> ss[j].name != n
    decreases |ss|
  {
    if ss[0].name == n {
      i := 0;
    } else {
      assert Names(ss[1..]) == Names(ss)[1..];
      var k := FirstIndex(ss[1..], n);
      i := k + 1;
    }
  }

  /** Setting never reorders or drops names; a new name goes last. */
  lemma NamesAssign<V>(ss: seq<Slot<V>>, n: string, v: V)
    ensures Names(Assign(ss, n, v)) == if n in Names(ss) then Names(ss) else Names(ss) + [n]
  {
    if n in Names(ss) {
      var i := FirstIndex(ss, n);
      AssignFound(ss, n, v, i);
    } else {
      AssignMissing(ss, n, v);
    }
  }

  lemma AssignWellFormed<V>(ss: seq<Slot<V>>, n: string, v: V)
    requires WellFormed(ss) && ValidName(n)
    ensures WellFormed(Assign(ss, n, v))
  {
    var r := Assign(ss, n, v);
    NamesAssign(ss, n, v);
    forall i | 0 <= i < |r| ensures ValidName(r[i].name) {
      assert r[i].name == Names(r)[i];
      if i < |ss| {
        assert Names(ss)[i] == ss[i].name;
      }
    }
  }

  /** A set variable reads back as the value just written; every other
      variable reads as before. */
  lemma {:induction false} LookupAssign<V>(ss: seq<Slot<V>>, n: string, v: V, m: string)
    ensures Lookup(Assign(ss, n, v), m) == if m == n then Some(v) else Lookup(ss, m)
    decreases |ss|
  {
    if ss != [] && ss[0].name != n {
      LookupAssign(ss[1..], n, v, m);
    }
  }

  /** In a table without repeated names, looking a slot's name up finds that slot. */
  lemma {:induction false} LookupAt<V>(ss: seq<Slot<V>>, i: nat)
    requires Distinct(Names(ss)) && i < |ss|
    ensures Lookup(ss, ss[i].name) == Some(ss[i].value)
    decreases |ss|
  {
    if i > 0 {
      assert Names(ss)[0] != Names(ss)[i];
      assert Names(ss[1..]) == Names(ss)[1..];
      LookupAt(ss[1..], i - 1);
    }
  }

  /** A name no slot carries reads as unset, and only such a name does. */
  lemma {:induction false} LookupMissing<V>(ss: seq<Slot<V>>, n: string)
    ensures Lookup(ss, n) == None <==> n !in Names(ss)
    decreases |ss|
  {
    if ss != [] {
      assert Names(ss) == [ss[0].name] + Names(ss[1..]);
      LookupMissing(ss[1..], n);
    }
  }

  /** Setting the variables of a list without repeated names, starting from
      an empty table, yields that list itself. */
  lemma {:induction false} AssignAllDistinct<V>(ps: seq<Slot<V>>)
    requires Distinct(Names(ps))
    ensures AssignAll([], ps) == ps
    decreases |ps|
  {
    if ps != [] {
      var init := ps[..|ps| - 1];
      var last := ps[|ps| - 1];
      assert Names(init) == Names(ps)[..|ps| - 1];
      AssignAllDistinct(init);
      assert last.name == Names(ps)[|ps| - 1];
      assert last.name !in Names(init);
      AssignMissing(init, last.name, last.value);
      assert init + [last] == ps;
    }
  }
}
