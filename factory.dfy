/** The record factory: `Factory.new` turns a list of field names into a
    record type, and every record of that type keeps its fields in an
    instance-variable table. All accessors read that table, so only the
    fields that have been assigned are visible, in the order of their first
    assignment (the order of Ruby 3.2 and later). */
module Factory {
  import opened Outcomes
  import opened Seqs
  import opened Ivars

  /** An argument of `Factory.new`: a String or a Symbol, with its text. */
  datatype Arg = Str(text: string) | Sym(text: string)

  /** What `Factory.new` makes of its arguments: an optional type name and
      the declared field names, in order. */
  datatype Definition = Definition(name: Option<string>, fields: seq<string>)

  function Texts(args: seq<Arg>): seq<string> {
    seq(|args|, i requires 0 <= i < |args| => args[i].text)
  }

  /** A leading String is the type name; every other argument is a field. */
  function Split(args: seq<Arg>): Definition {
    if |args| > 0 && args[0].Str? then Definition(Some(args[0].text), Texts(args[1..]))
    else Definition(None, Texts(args))
  }

  predicate LegalFields(fields: seq<string>) {
    forall i :: 0 <= i < |fields| ==> ValidName(fields[i])
  }

  /** The accessors are declared for every field, which fails with a
      NameError when a field is not a legal attribute name. */
  function Define(args: seq<Arg>): Result<Definition> {
    var d := Split(args);
    if LegalFields(d.fields) then Ok(d) else Err(NameError)
  }

  /** Values a record slot can hold; `Nil` is Ruby's nil. A record held in a
      slot is held by reference. */
  datatype Value = Nil | Prim(n: int) | Rec(obj: Record)

  /** The argument of `[]` and `[]=`: an Integer, or a String or Symbol. */
  datatype Key = Index(i: int) | Name(text: string)

  /** `Array#[]` converts an Integer index to a C `long` (64 bits wide here)
      and raises a RangeError for one that does not fit. */
  predicate FitsLong(i: int) {
    -0x8000_0000_0000_0000 <= i < 0x8000_0000_0000_0000
  }

  /** Ruby's `Array#[]` with an Integer that fits: negative indexes count
      from the end; an index outside the array gives nothing. */
  function ArrayAt<T>(xs: seq<T>, i: int): Option<T> {
    if 0 <= i < |xs| then Some(xs[i])
    else if -|xs| <= i < 0 then Some(xs[|xs| + i])
    else None
  }

  /** The table `initialize` leaves behind: the i-th value assigned to the
      i-th field, first to last. */
  function Initialized(fields: seq<string>, params: seq<Value>): seq<Slot<Value>>
    requires |params| <= |fields|
  {
    AssignAll([], Zip(fields[..|params|], params))
  }

  /** A record type. Each call of `New` makes a distinct one, so object
      identity stands for Ruby's class identity. */
  class RecordType {
    const name: Option<string>
    const fields: seq<string>

    predicate Valid() {
      LegalFields(fields)
    }

    constructor (d: Definition)
      requires LegalFields(d.fields)
      ensures name == d.name && fields == d.fields && Valid()
    {
      name := d.name;
      fields := d.fields;
    }

    /** `new(*params)`: too many values raise an ArgumentError; otherwise
        value i is assigned to field i, for every value given. */
    method Construct(params: seq<Value>) returns (r: Result<Record>)
      requires Valid()
      ensures r.Err? <==> |params| > |fields|
      ensures r.Err? ==> r.error == ArgumentError
      ensures r.Ok? ==> fresh(r.value) && r.value.kind == this && r.value.Valid()
      ensures r.Ok? ==> r.value.slots == Initialized(fields, params)
    {
      if |params| > |fields| {
        return Err(ArgumentError);
      }
      var rec := new Record.Blank(this);
      var i := 0;
      while i < |params|
        invariant 0 <= i <= |params|
        invariant rec.kind == this && rec.Valid()
        invariant rec.slots == AssignAll([], Zip(fields[..i], params[..i]))
      {
        var before := Zip(fields[..i], params[..i]);
        var after := Zip(fields[..i + 1], params[..i + 1]);
        assert after[..i] == before && after[i] == Slot(fields[i], params[i]);
        rec.Put(fields[i], params[i]);
        i := i + 1;
      }
      assert params[..i] == params;
      return Ok(rec);
    }
  }

  /** `Factory.new(*arguments)`, without the global constant it may define. */
  method New(args: seq<Arg>) returns (r: Result<RecordType>)
    ensures r.Err? <==> Define(args).Err?
    ensures r.Err? ==> r.error == NameError
    ensures r.Ok? ==> fresh(r.value) && r.value.Valid()
    ensures r.Ok? ==> r.value.name == Split(args).name && r.value.fields == Split(args).fields
  {
    var d := Define(args);
    if d.Err? {
      return Err(d.error);
    }
    var t := new RecordType(d.value);
    return Ok(t);
  }

  /** An instance of a record type. */
  class Record {
    const kind: RecordType
    var slots: seq<Slot<Value>>

    ghost predicate Valid()
      reads this
    {
      kind.Valid() && WellFormed(slots)
    }

    /** A freshly allocated record, before `initialize` has set anything. */
    constructor Blank(t: RecordType)
      requires t.Valid()
      ensures kind == t && slots == [] && Valid()
    {
      kind := t;
      slots := [];
    }

    /** `size` and `length`: the number of assigned slots. */
    function Size(): nat
      reads this
    {
      |slots|
    }

    /** `members`: the assigned names, in order of first assignment. */
    function Members(): seq<string>
      reads this
    {
      Names(slots)
    }

    /** `to_a` and `instance_variables_values`: the assigned values, in the same order. */
    function ToA(): seq<Value>
      reads this
    {
      Values(slots)
    }

    /** `self[key]`. An Integer selects an assigned slot by position. One
        outside the range of a `long` raises a RangeError; past the assigned
        slots it yields no name, and reading the variable named nil raises a
        TypeError. A name that is not a legal variable name
        raises a NameError; a legal one never assigned reads as nil. */
    function Get(key: Key): Result<Value>
      reads this
    {
      match key
      case Index(i) =>
        if !FitsLong(i) then Err(RangeError)
        else (match ArrayAt(slots, i)
              case Some(s) => Ok(s.value)
              case None => Err(TypeError))
      case Name(n) =>
        if ValidName(n) then Ok(Lookup(slots, n).GetOr(Nil)) else Err(NameError)
    }

    /** Setting an instance variable: the slot of that name is overwritten,
        or a new slot is appended. */
    method Put(n: string, v: Value)
      requires Valid() && ValidName(n)
      modifies this
      ensures Valid()
      ensures slots == Assign(old(slots), n, v)
    {
      var i := 0;
      while i < |slots| && slots[i].name != n
        invariant 0 <= i <= |slots|
        invariant forall j :: 0 <= j < i ==> slots[j].name != n
      {
        i := i + 1;
      }
      AssignWellFormed(slots, n, v);
      if i < |slots| {
        AssignFound(slots, n, v, i);
        slots := slots[i := Slot(n, v)];
      } else {
        assert n !in Names(slots);
        AssignMissing(slots, n, v);
        slots := slots + [Slot(n, v)];
      }
    }

    /** `self[key] = v`. The key is spliced into a variable name, so an
        Integer (`@0`, `@-1`) and any other illegal name raise a NameError
        and change nothing. */
    method Set(key: Key, v: Value) returns (r: Result<Value>)
      requires Valid()
      modifies this
      ensures Valid()
      ensures r.Ok? <==> key.Name? && ValidName(key.text)
      ensures r.Ok? ==> r.value == v && slots == Assign(old(slots), key.text, v)
      ensures r.Err? ==> r.error == NameError && slots == old(slots)
    {
      if key.Index? || !ValidName(key.text) {
        return Err(NameError);
      }
      Put(key.text, v);
      return Ok(v);
    }

    /** `self == other`: a TypeError unless `other` is a record of the very
        same type; otherwise Ruby's `Array#==` on the two `to_a` arrays. */
    function Equals(other: Value): Result<bool>
      reads *
    {
      if other.Rec? && other.obj.kind == kind then ArrayEq(ToA(), other.obj.ToA())
      else Err(TypeError)
    }

    /** `each`: the state a block reaches after being handed every value. */
    function Each<S>(visit: (S, Value) -> S, s: S): S
      reads this
    {
      Fold(ToA(), visit, s)
    }

    /** `Hash[members.zip(to_a)]`: the pairs set one by one into a hash,
        which keeps the first position and the last value of a repeated key. */
    function Pairs(): seq<Slot<Value>>
      reads this
    {
      AssignAll([], Zip(Members(), ToA()))
    }

    /** `each_pair`: the state a block reaches after being handed every
        (name, value) pair of that hash. */
    function EachPair<S>(visit: (S, string, Value) -> S, s: S): S
      reads this
    {
      Fold(Pairs(), PairVisitor(visit), s)
    }

    /** `values_at(*params)`: `to_a[param]` for each index, in request order;
        an index that does not fit in a `long` raises a RangeError. */
    function ValuesAt(idx: seq<int>): Result<seq<Value>>
      reads this
    {
      var xs := ToA();
      if forall j :: 0 <= j < |idx| ==> FitsLong(idx[j]) then
        Ok(seq(|idx|, j requires 0 <= j < |idx| => ArrayAt(xs, idx[j]).GetOr(Nil)))
      else Err(RangeError)
    }

    /** `select`: the values the block accepts, taken from a fresh `to_a`. */
    function Select(keep: Value -> bool): seq<Value>
      reads this
    {
      Filter(ToA(), keep)
    }

    /** `dig(*params)`: starting from the record itself, stop at the first
        nil, and otherwise look each key up in the previous result. */
    method Dig(keys: seq<Key>) returns (r: Result<Value>)
      ensures r == DigFrom(Rec(this), keys)
    {
      var result := Rec(this);
      var i := 0;
      while i < |keys|
        invariant 0 <= i <= |keys|
        invariant DigFrom(result, keys[i..]) == DigFrom(Rec(this), keys)
      {
        if result.Nil? {
          break;
        }
        if result.Prim? {
          return Err(ForeignLookup);
        }
        assert keys[i..][1..] == keys[i + 1..];
        var step := result.obj.Get(keys[i]);
        if step.Err? {
          return Err(step.error);
        }
        result := step.value;
        i := i + 1;
      }
      return Ok(result);
    }
  }

  /** Ruby's `rb_equal(x, y)`, as `Array#==` applies it to two elements:
      identical values are equal; otherwise `x == y` is called. Nil's `==` is
      identity. Integer's `==` on a non-number asks `y == x`, and a record's
      `==` raises a TypeError for anything but a record of its own type.
      Two distinct records of one type compare their `to_a` arrays, whose own
      elements are taken as equal when they are the same value. */
  function ElemEq(x: Value, y: Value): Result<bool>
    reads *
  {
    if x == y then Ok(true)
    else
      match x
      case Nil => Ok(false)
      case Prim(n) =>
        (match y
         case Prim(m) => Ok(n == m)
         case Nil => Ok(false)
         case Rec(_) => Err(TypeError))
      case Rec(c) =>
        if y.Rec? && y.obj.kind == c.kind then Ok(c.ToA() == y.obj.ToA())
        else Err(TypeError)
  }

  /** Element-by-element comparison of two arrays of one length: the first
      pair that is not equal decides, and an exception on the way is raised. */
  function ElementsEq(xs: seq<Value>, ys: seq<Value>): Result<bool>
    requires |xs| == |ys|
    reads *
    decreases |xs|
  {
    if xs == [] then Ok(true)
    else
      match ElemEq(xs[0], ys[0])
      case Err(e) => Err(e)
      case Ok(same) => if same then ElementsEq(xs[1..], ys[1..]) else Ok(false)
  }

  /** Ruby's `Array#==`: arrays of different lengths are unequal without
      comparing any element. */
  function ArrayEq(xs: seq<Value>, ys: seq<Value>): Result<bool>
    reads *
  {
    if |xs| != |ys| then Ok(false) else ElementsEq(xs, ys)
  }

  /** A block taking a name and a value, fed with slots. */
  function PairVisitor<S>(visit: (S, string, Value) -> S): (S, Slot<Value>) -> S {
    (acc: S, p: Slot<Value>) => visit(acc, p.name, p.value)
  }

  /** What `dig` computes from the value `v` and the remaining keys. */
  function DigFrom(v: Value, keys: seq<Key>): Result<Value>
    reads *
    decreases |keys|
  {
    if keys == [] then Ok(v)
    else
      match v
      case Nil => Ok(Nil)
      case Prim(_) => Err(ForeignLookup)
      case Rec(o) =>
        match o.Get(keys[0])
        case Err(e) => Err(e)
        case Ok(w) => DigFrom(w, keys[1..])
  }
}
