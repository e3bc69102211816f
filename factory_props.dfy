/** Properties of the record factory: how arguments split into a name and
    fields, what construction leaves in a record, and what every accessor
    returns, stated over records and proved from the definitions. */
module FactoryProps {
  import opened Outcomes
  import opened Seqs
  import opened Ivars
  import opened Factory

  // ---------------------------------------------------------------- Factory.new

  /** Only a leading String becomes the type name; putting it back in front
      of the fields gives back every argument's text, in order. */
  lemma SplitRecombines(args: seq<Arg>)
    ensures Split(args).name.Some? <==> |args| > 0 && args[0].Str?
    ensures Split(args).name.Some? ==> Split(args).name.value == args[0].text
    ensures (match Split(args).name case Some(n) => [n] case None => []) + Split(args).fields
         == Texts(args)
  {
  }

  /** A type is defined exactly when its fields are keys that `[]` and
      `[]=` accept on every record: a defined field reads without error and,
      being a legal name, can be set; an undefined type has a field that
      `[]` rejects with a NameError. */
  lemma DefinedFieldsAreKeys(args: seq<Arg>, r: Record)
    ensures Define(args).Ok? ==>
              forall f :: f in Split(args).fields ==> ValidName(f) && r.Get(Name(f)).Ok?
    ensures Define(args).Err? ==>
              exists f :: f in Split(args).fields && r.Get(Name(f)) == Err(NameError)
  {
    var fields := Split(args).fields;
    if Define(args).Err? {
      var i :| 0 <= i < |fields| && !ValidName(fields[i]);
      assert fields[i] in fields && r.Get(Name(fields[i])) == Err(NameError);
    }
  }

  // ---------------------------------------------------------------- initialize

  /** However many fields repeat, `initialize` assigns at most one slot per
      value, and only declared, supplied field names. */
  lemma {:induction false} AssignAllBounds<V>(ss: seq<Slot<V>>, ps: seq<Slot<V>>)
    ensures |AssignAll(ss, ps)| <= |ss| + |ps|
    ensures forall n :: n in Names(AssignAll(ss, ps)) ==> n in Names(ss) || n in Names(ps)
    decreases |ps|
  {
    if ps != [] {
      var init := ps[..|ps| - 1];
      var last := ps[|ps| - 1];
      AssignAllBounds(ss, init);
      NamesAssign(AssignAll(ss, init), last.name, last.value);
      assert Names(init) == Names(ps)[..|ps| - 1];
      assert last.name == Names(ps)[|ps| - 1];
    }
  }

  lemma InitializedBounds(fields: seq<string>, params: seq<Value>)
    requires |params| <= |fields|
    ensures |Initialized(fields, params)| <= |params|
    ensures forall n :: n in Names(Initialized(fields, params)) ==> n in fields[..|params|]
  {
    AssignAllBounds([], Zip(fields[..|params|], params));
    ZipNamesValues(fields[..|params|], params);
  }

  /** When the first k field names are distinct, constructing from k values
      leaves exactly k slots: those fields, holding the k values in order.
      The remaining fields get no slot at all, even if they repeat one. */
  lemma ConstructedContents(fields: seq<string>, params: seq<Value>)
    requires |params| <= |fields| && Distinct(fields[..|params|])
    ensures Initialized(fields, params) == Zip(fields[..|params|], params)
    ensures Names(Initialized(fields, params)) == fields[..|params|]
    ensures Values(Initialized(fields, params)) == params
  {
    var ps := Zip(fields[..|params|], params);
    ZipNamesValues(fields[..|params|], params);
    AssignAllDistinct(ps);
  }

  /** The same, read through the record's own accessors. */
  lemma ConstructedRecord(t: RecordType, r: Record, params: seq<Value>)
    requires |params| <= |t.fields| && Distinct(t.fields[..|params|])
    requires r.slots == Initialized(t.fields, params)
    ensures r.ToA() == params
    ensures r.Members() == t.fields[..|params|]
    ensures r.Size() == |params|
  {
    ConstructedContents(t.fields, params);
  }

  /** A declared field that was not supplied reads as nil by name, while its
      position is past the assigned slots, so reading it by index raises
      (a RangeError only for a position beyond the range of a `long`). */
  lemma UnsuppliedField(t: RecordType, r: Record, params: seq<Value>, j: nat)
    requires t.Valid()
    requires |params| <= j < |t.fields| && t.fields[j] !in t.fields[..|params|]
    requires r.slots == Initialized(t.fields, params)
    ensures r.Get(Name(t.fields[j])) == Ok(Nil)
    ensures r.Get(Index(j)) == if FitsLong(j) then Err(TypeError) else Err(RangeError)
  {
    InitializedBounds(t.fields, params);
    LookupMissing(r.slots, t.fields[j]);
  }

  // ---------------------------------------------------------------- [] and to_a, members, size

  /** `members`, `to_a` and `size` describe the same slots, position by position. */
  lemma MembersAlignWithValues(r: Record)
    ensures |r.Members()| == |r.ToA()| == r.Size()
    ensures forall i :: 0 <= i < r.Size() ==> r.slots[i] == Slot(r.Members()[i], r.ToA()[i])
  {
  }

  /** An Integer key that fits in a `long` reads `to_a` with Ruby's array
      indexing and raises a TypeError exactly when it falls outside the
      assigned slots; one that does not fit raises a RangeError. */
  lemma GetByIndex(r: Record, i: int)
    ensures FitsLong(i) && -(r.Size() as int) <= i < r.Size() ==>
              r.Get(Index(i)) == Ok(r.ToA()[if i < 0 then r.Size() + i else i])
    ensures FitsLong(i) && !(-(r.Size() as int) <= i < r.Size()) ==> r.Get(Index(i)) == Err(TypeError)
    ensures !FitsLong(i) ==> r.Get(Index(i)) == Err(RangeError)
  {
  }

  /** An assigned member's name reads that member's value. */
  lemma GetByName(r: Record, i: nat)
    requires r.Valid() && i < r.Size()
    ensures r.Get(Name(r.Members()[i])) == Ok(r.ToA()[i])
  {
    LookupAt(r.slots, i);
  }

  /** A legal name that was never assigned reads as nil; an illegal one raises. */
  lemma GetOtherName(r: Record, n: string)
    ensures ValidName(n) && n !in r.Members() ==> r.Get(Name(n)) == Ok(Nil)
    ensures !ValidName(n) ==> r.Get(Name(n)) == Err(NameError)
  {
    LookupMissing(r.slots, n);
  }

  // ---------------------------------------------------------------- []=

  /** Setting an assigned member changes that one value and nothing else. */
  lemma AssignExisting<V>(ss: seq<Slot<V>>, i: nat, v: V)
    requires Distinct(Names(ss)) && i < |ss|
    ensures |Assign(ss, ss[i].name, v)| == |ss|
    ensures Names(Assign(ss, ss[i].name, v)) == Names(ss)
    ensures Values(Assign(ss, ss[i].name, v)) == Values(ss)[i := v]
  {
    forall j | 0 <= j < i ensures ss[j].name != ss[i].name {
      assert Names(ss)[j] != Names(ss)[i];
    }
    AssignFound(ss, ss[i].name, v, i);
  }

  /** Setting a name not yet assigned appends one slot at the end. */
  lemma AssignNew<V>(ss: seq<Slot<V>>, n: string, v: V)
    requires n !in Names(ss)
    ensures Names(Assign(ss, n, v)) == Names(ss) + [n]
    ensures Values(Assign(ss, n, v)) == Values(ss) + [v]
  {
    AssignMissing(ss, n, v);
  }

  /** After `self[n] = v`, `self[n]` is v and every other name reads as before. */
  lemma GetAfterSet(r: Record, before: seq<Slot<Value>>, n: string, v: Value, m: string)
    requires ValidName(n) && r.slots == Assign(before, n, v)
    ensures r.Get(Name(n)) == Ok(v)
    ensures m != n ==> r.Get(Name(m)) == if ValidName(m) then Ok(Lookup(before, m).GetOr(Nil)) else Err(NameError)
  {
    LookupAssign(before, n, v, n);
    LookupAssign(before, n, v, m);
  }

  // ---------------------------------------------------------------- ==

  /** `==` raises a TypeError when the other value is not a record of the
      same type, before any value is compared. */
  lemma EqualsNeedsSameType(a: Record, other: Value)
    requires !(other.Rec? && other.obj.kind == a.kind)
    ensures a.Equals(other) == Err(TypeError)
  {
  }

  lemma {:induction false} ElementsEqReflexive(xs: seq<Value>)
    ensures ElementsEq(xs, xs) == Ok(true)
    decreases |xs|
  {
    if xs != [] {
      ElementsEqReflexive(xs[1..]);
    }
  }

  /** A record equals itself. */
  lemma EqualsReflexive(a: Record)
    ensures a.Equals(Rec(a)) == Ok(true)
  {
    ElementsEqReflexive(a.ToA());
  }

  /** Two records of one type holding the same values, in the same order,
      are equal, whatever those values are. */
  lemma SameValuesEqual(a: Record, b: Record)
    requires a.kind == b.kind && a.ToA() == b.ToA()
    ensures a.Equals(Rec(b)) == Ok(true)
  {
    ElementsEqReflexive(a.ToA());
  }

  /** Two records of one type built from the same values are equal. */
  lemma ConstructedEqual(t: RecordType, a: Record, b: Record, params: seq<Value>)
    requires |params| <= |t.fields| && a.kind == t && b.kind == t
    requires a.slots == Initialized(t.fields, params) && b.slots == Initialized(t.fields, params)
    ensures a.Equals(Rec(b)) == Ok(true)
  {
    SameValuesEqual(a, b);
  }

  lemma ElemEqTrueSymmetric(x: Value, y: Value)
    ensures ElemEq(x, y) == Ok(true) <==> ElemEq(y, x) == Ok(true)
  {
  }

  /** Both directions stop at the same first pair that is not equal, so one
      direction is true exactly when the other is, and two answers without
      an exception agree. */
  lemma {:induction false} ElementsEqSymmetric(xs: seq<Value>, ys: seq<Value>)
    requires |xs| == |ys|
    ensures ElementsEq(xs, ys) == Ok(true) <==> ElementsEq(ys, xs) == Ok(true)
    ensures ElementsEq(xs, ys).Ok? && ElementsEq(ys, xs).Ok? ==> ElementsEq(xs, ys) == ElementsEq(ys, xs)
    decreases |xs|
  {
    if xs != [] {
      ElemEqTrueSymmetric(xs[0], ys[0]);
      ElementsEqSymmetric(xs[1..], ys[1..]);
    }
  }

  /** `a == b` is true exactly when `b == a` is; when neither raises, both
      give the same answer. (One direction may raise while the other is
      false: see `EqualsAsymmetric`.) */
  lemma EqualsSymmetric(a: Record, b: Record)
    ensures a.Equals(Rec(b)) == Ok(true) <==> b.Equals(Rec(a)) == Ok(true)
    ensures a.Equals(Rec(b)).Ok? && b.Equals(Rec(a)).Ok? ==> a.Equals(Rec(b)) == b.Equals(Rec(a))
  {
    if a.kind == b.kind && |a.ToA()| == |b.ToA()| {
      ElementsEqSymmetric(a.ToA(), b.ToA());
    }
  }

  /** No slot holds a record. */
  predicate Flat(vs: seq<Value>) {
    forall i :: 0 <= i < |vs| ==> !vs[i].Rec?
  }

  lemma {:induction false} ElementsEqFlat(xs: seq<Value>, ys: seq<Value>)
    requires |xs| == |ys| && Flat(xs) && Flat(ys)
    ensures ElementsEq(xs, ys) == Ok(xs == ys)
    decreases |xs|
  {
    if xs != [] {
      ElementsEqFlat(xs[1..], ys[1..]);
      assert xs == [xs[0]] + xs[1..] && ys == [ys[0]] + ys[1..];
    }
  }

  /** Between records of one type whose slots hold only nil and integers,
      `==` never raises, is symmetric, and is equality of `to_a`. */
  lemma EqualsFlat(a: Record, b: Record)
    requires a.kind == b.kind && Flat(a.ToA()) && Flat(b.ToA())
    ensures a.Equals(Rec(b)) == Ok(a.ToA() == b.ToA())
    ensures a.Equals(Rec(b)) == b.Equals(Rec(a))
  {
    if |a.ToA()| == |b.ToA()| {
      ElementsEqFlat(a.ToA(), b.ToA());
      ElementsEqFlat(b.ToA(), a.ToA());
    }
  }

  /** With nil in one record where the other holds a record, `a == b` is
      false (nil's `==` is identity) but `b == a` raises, because the held
      record's `==` is handed nil. */
  lemma EqualsAsymmetric(a: Record, b: Record, c: Record)
    requires a.kind == b.kind
    requires a.slots == [Slot("x", Nil)] && b.slots == [Slot("x", Rec(c))]
    ensures a.Equals(Rec(b)) == Ok(false)
    ensures b.Equals(Rec(a)) == Err(TypeError)
  {
    assert a.ToA() == [Nil] && b.ToA() == [Rec(c)];
  }

  /** Records of one type can still make `==` raise: an integer compared
      with a held record asks that record, which rejects it. */
  lemma EqualsRaisesWithinType(a: Record, b: Record, c: Record)
    requires a.kind == b.kind
    requires a.slots == [Slot("x", Prim(5))] && b.slots == [Slot("x", Rec(c))]
    ensures a.Equals(Rec(b)) == Err(TypeError)
    ensures b.Equals(Rec(a)) == Err(TypeError)
  {
    assert a.ToA() == [Prim(5)] && b.ToA() == [Rec(c)];
  }

  lemma {:induction false} ElementsEqTrueAt(xs: seq<Value>, ys: seq<Value>, i: nat)
    requires |xs| == |ys| && i < |xs| && ElementsEq(xs, ys) == Ok(true)
    ensures ElemEq(xs[i], ys[i]) == Ok(true)
    decreases |xs|
  {
    if i > 0 {
      ElementsEqTrueAt(xs[1..], ys[1..], i - 1);
    }
  }

  /** Equal records cannot be told apart by position: same size, an Integer
      lookup succeeds in one exactly when in the other, and the two values
      found are themselves `==`. Names play no part in `==`. */
  lemma EqualsIndistinguishable(a: Record, b: Record, i: int)
    requires a.Equals(Rec(b)) == Ok(true)
    ensures a.Size() == b.Size()
    ensures a.Get(Index(i)).Ok? <==> b.Get(Index(i)).Ok?
    ensures a.Get(Index(i)).Ok? ==> ElemEq(a.Get(Index(i)).value, b.Get(Index(i)).value) == Ok(true)
  {
    assert |a.ToA()| == a.Size() && |b.ToA()| == b.Size();
    GetByIndex(a, i);
    GetByIndex(b, i);
    if FitsLong(i) && -(a.Size() as int) <= i < a.Size() {
      ElementsEqTrueAt(a.ToA(), b.ToA(), if i < 0 then a.Size() + i else i);
    }
  }

  // ---------------------------------------------------------------- each, each_pair

  /** `each` hands the block every value of `to_a`, once each, in order. */
  lemma EachVisitsValuesInOrder(r: Record)
    ensures r.Each((acc: seq<Value>, v: Value) => acc + [v], []) == r.ToA()
  {
    FoldAppends(r.ToA(), (acc: seq<Value>, v: Value) => acc + [v], (v: Value) => v, []);
  }

  /** The hash built for `each_pair` keeps every slot, because member names
      never repeat. */
  lemma PairsAreSlots(r: Record)
    requires r.Valid()
    ensures r.Pairs() == r.slots
  {
    UnzipZip(r.slots);
    AssignAllDistinct(r.slots);
  }

  /** `each_pair` hands the block exactly the pairs (members[i], to_a[i]), in order. */
  lemma EachPairVisitsPairsInOrder(r: Record)
    requires r.Valid()
    ensures var visited := r.EachPair((acc: seq<(string, Value)>, n: string, v: Value) => acc + [(n, v)], []);
            |visited| == r.Size() &&
            forall i :: 0 <= i < r.Size() ==> visited[i] == (r.Members()[i], r.ToA()[i])
  {
    var collect := (acc: seq<(string, Value)>, n: string, v: Value) => acc + [(n, v)];
    PairsAreSlots(r);
    FoldAppends(r.Pairs(), PairVisitor(collect), (p: Slot<Value>) => (p.name, p.value), []);
  }

  // ---------------------------------------------------------------- values_at

  /** `values_at` raises a RangeError exactly when `[]` would raise one for
      some requested index. Otherwise it answers one value per requested
      index, in request order: what `[]` returns for that index, or nil
      where `[]` raises a TypeError for a position past the slots. */
  lemma ValuesAtAgreesWithGet(r: Record, idx: seq<int>)
    ensures r.ValuesAt(idx).Err? <==> exists k :: 0 <= k < |idx| && r.Get(Index(idx[k])) == Err(RangeError)
    ensures r.ValuesAt(idx).Err? ==> r.ValuesAt(idx).error == RangeError
    ensures r.ValuesAt(idx).Ok? ==> |r.ValuesAt(idx).value| == |idx|
    ensures r.ValuesAt(idx).Ok? ==> forall j :: 0 <= j < |idx| && r.Get(Index(idx[j])).Ok? ==>
              r.ValuesAt(idx).value[j] == r.Get(Index(idx[j])).value
    ensures r.ValuesAt(idx).Ok? ==> forall j :: 0 <= j < |idx| && r.Get(Index(idx[j])).Err? ==>
              r.Get(Index(idx[j])) == Err(TypeError) && r.ValuesAt(idx).value[j] == Nil
  {
  }

  /** Asking for two lists of indexes at once is asking for each in turn,
      and raises when either list does. */
  lemma ValuesAtConcat(r: Record, a: seq<int>, b: seq<int>)
    ensures r.ValuesAt(a + b) == match (r.ValuesAt(a), r.ValuesAt(b))
                                 case (Ok(x), Ok(y)) => Ok(x + y)
                                 case _ => Err(RangeError)
  {
    if r.ValuesAt(a).Err? {
      var k :| 0 <= k < |a| && !FitsLong(a[k]);
      assert (a + b)[k] == a[k];
    } else if r.ValuesAt(b).Err? {
      var k :| 0 <= k < |b| && !FitsLong(b[k]);
      assert (a + b)[|a| + k] == b[k];
    } else {
      assert forall j :: 0 <= j < |a + b| ==> FitsLong((a + b)[j]) by {
        forall j | 0 <= j < |a + b| ensures FitsLong((a + b)[j]) {
          if j < |a| { assert (a + b)[j] == a[j]; } else { assert (a + b)[j] == b[j - |a|]; }
        }
      }
      assert r.ValuesAt(a + b).value == r.ValuesAt(a).value + r.ValuesAt(b).value;
    }
  }

  // ---------------------------------------------------------------- select

  /** `select` keeps, in their original order, exactly the values the block
      accepts, each as often as `to_a` holds it. */
  lemma SelectKeepsAccepted(r: Record, keep: Value -> bool)
    ensures Subsequence(r.Select(keep), r.ToA())
    ensures forall x :: multiset(r.Select(keep))[x] == if keep(x) then multiset(r.ToA())[x] else 0
    ensures forall x :: x in r.Select(keep) <==> x in r.ToA() && keep(x)
  {
    FilterIsSubsequence(r.ToA(), keep);
    forall x ensures multiset(r.Select(keep))[x] == if keep(x) then multiset(r.ToA())[x] else 0 {
      FilterCounts(r.ToA(), keep, x);
    }
    forall x ensures x in r.Select(keep) <==> x in r.ToA() && keep(x) {
      FilterMembers(r.ToA(), keep, x);
    }
  }

  // ---------------------------------------------------------------- dig

  /** `dig()` is the record itself and `dig(k)` is `self[k]`. */
  lemma DigFirstSteps(r: Record, k: Key)
    ensures DigFrom(Rec(r), []) == Ok(Rec(r))
    ensures DigFrom(Rec(r), [k]) == r.Get(k)
  {
  }

  /** Once nil is reached, every remaining key is skipped. */
  lemma DigNil(keys: seq<Key>)
    ensures DigFrom(Nil, keys) == Ok(Nil)
  {
  }

  /** Digging through `ks1 + ks2` digs through `ks1`, then through `ks2`
      from where it stopped; an error on the way is the result. */
  lemma {:induction false} DigAppend(v: Value, ks1: seq<Key>, ks2: seq<Key>)
    ensures DigFrom(v, ks1 + ks2) == match DigFrom(v, ks1)
                                     case Ok(w) => DigFrom(w, ks2)
                                     case Err(e) => Err(e)
    decreases |ks1|
  {
    if ks1 == [] {
      assert ks1 + ks2 == ks2;
    } else if v.Rec? {
      assert (ks1 + ks2)[0] == ks1[0] && (ks1 + ks2)[1..] == ks1[1..] + ks2;
      match v.obj.Get(ks1[0])
      case Err(e) =>
      case Ok(w) => DigAppend(w, ks1[1..], ks2);
    }
  }

  /** A nil met after some prefix of the keys is the answer for all the keys. */
  lemma DigShortCircuits(r: Record, keys: seq<Key>, j: nat)
    requires j <= |keys| && DigFrom(Rec(r), keys[..j]) == Ok(Nil)
    ensures DigFrom(Rec(r), keys) == Ok(Nil)
  {
    DigAppend(Rec(r), keys[..j], keys[j..]);
    assert keys[..j] + keys[j..] == keys;
  }

  /** A record whose `inner` slot holds a record holding 5: `dig(:inner, 0)`
      is 5; with `inner` unset it is nil, without an error. */
  lemma DigNested(outer: Record, inner: Record, blank: Record)
    requires outer.slots == [Slot("inner", Rec(inner))]
    requires inner.slots == [Slot("value", Prim(5))]
    requires blank.slots == []
    ensures DigFrom(Rec(outer), [Name("inner"), Index(0)]) == Ok(Prim(5))
    ensures DigFrom(Rec(blank), [Name("inner"), Index(0)]) == Ok(Nil)
  {
    assert ValidName("inner");
    assert outer.Get(Name("inner")) == Ok(Rec(inner));
    assert inner.Get(Index(0)) == Ok(Prim(5));
    assert DigFrom(Rec(inner), [Index(0)]) == Ok(Prim(5));
    assert [Name("inner"), Index(0)][1..] == [Index(0)];
  }

  // ---------------------------------------------------------------- a client

  /** A two-field type used the way its callers use it: what the contracts
      above let a caller conclude about each step. */
  method PointScenario() {
    var made := New([Sym("x"), Sym("y")]);
    assert ValidName("x") && ValidName("y");
    assert Split([Sym("x"), Sym("y")]).fields == ["x", "y"];
    var t := made.value;
    assert Distinct(t.fields);

    var full := t.Construct([Prim(1), Prim(2)]);
    var p := full.value;
    ConstructedRecord(t, p, [Prim(1), Prim(2)]);
    GetByName(p, 0);
    assert p.Get(Name("x")) == Ok(Prim(1));
    assert p.Get(Index(1)) == Ok(Prim(2));
    assert p.Members() == ["x", "y"] && p.ToA() == [Prim(1), Prim(2)];

    var partial := t.Construct([Prim(1)]);
    var q := partial.value;
    ConstructedRecord(t, q, [Prim(1)]);
    assert q.ToA() == [Prim(1)] && q.Size() == 1;
    UnsuppliedField(t, q, [Prim(1)], 1);
    assert q.Get(Name("y")) == Ok(Nil) && q.Get(Index(1)) == Err(TypeError);

    var excess := t.Construct([Prim(1), Prim(2), Prim(3)]);
    assert excess == Err(ArgumentError);

    var stored := q.Set(Index(0), Prim(7));
    assert stored == Err(NameError) && q.ToA() == [Prim(1)];
    ghost var before := q.slots;
    assert ValidName("z") && "z" !in Names(before);
    stored := q.Set(Name("z"), Prim(9));
    AssignNew(before, "z", Prim(9));
    assert q.Members() == ["x", "z"] && q.ToA() == [Prim(1), Prim(9)];

    // A repeated field that is not supplied leaves no trace.
    var madeRepeat := New([Sym("x"), Sym("y"), Sym("x")]);
    assert Split([Sym("x"), Sym("y"), Sym("x")]).fields == ["x", "y", "x"];
    var u := madeRepeat.value;
    assert u.fields[..2] == ["x", "y"];
    var pair := u.Construct([Prim(1), Prim(2)]);
    var w := pair.value;
    ConstructedRecord(u, w, [Prim(1), Prim(2)]);
    assert w.ToA() == [Prim(1), Prim(2)] && w.Members() == ["x", "y"];
  }
}
