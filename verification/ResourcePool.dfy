// The pool of functional units of Lab1-Hazards/resource.c: for every operation class, the list of unit
// templates that can execute it.
module ResourcePool {

  /** What a unit can do: the class of operations, 0 to end the list of templates, and its latencies. */
  datatype Template = Template(cls: int, oplat: int, issuelat: int)

  /** A kind of unit and how many there are of it. */
  datatype Desc = Desc(name: string, quantity: int, x: seq<Template>)

  /** One instance. */
  class Unit {
    const name: string
    const x: seq<Template>
    var busy: bool

    constructor (name: string, x: seq<Template>)
      ensures this.name == name && this.x == x && !busy
    {
      this.name, this.x, this.busy := name, x, false;
    }
  }

  /** A template of an instance, with the link to its instance. */
  datatype Plate = Plate(master: Unit, k: nat)

  /** How many templates come before the end of the list. */
  function Active(x: seq<Template>): (n: nat)
    ensures n <= |x|
    ensures forall k :: 0 <= k < n ==> x[k].cls != 0
    ensures n < |x| ==> x[n].cls == 0
  {
    if x == [] || x[0].cls == 0 then 0 else 1 + Active(x[1..])
  }

  /** What res_create_pool takes: 16 template slots, at most 8 instances of a kind, classes below 16. */
  predicate Acceptable(d: Desc)
  {
    && |d.x| == 16 && 0 <= d.quantity <= 8
    && forall k :: 0 <= k < Active(d.x) ==> 0 < d.x[k].cls < 16
  }

  /** Slots before n that serve a class. */
  function Serving(x: seq<Template>, c: int, n: nat): nat
    requires n <= |x|
  {
    if n == 0 then 0 else Serving(x, c, n - 1) + if x[n - 1].cls == c then 1 else 0
  }

  /** How many templates of a class the pool will hold. */
  function Demand(descs: seq<Desc>, c: int): int
  {
    if descs == [] then 0
    else
      var d := descs[|descs| - 1];
      Demand(descs[..|descs| - 1], c) + d.quantity * Serving(d.x, c, Active(d.x))
  }

  // ---- What the table should hold -------------------------------------------------------------------

  /** The templates of a unit that serve a class, among the first n. */
  function UnitPlates(u: Unit, c: int, n: nat): (ps: seq<Plate>)
    requires n <= |u.x|
    ensures |ps| == Serving(u.x, c, n)
  {
    if n == 0 then []
    else UnitPlates(u, c, n - 1) + if u.x[n - 1].cls == c then [Plate(u, n - 1)] else []
  }

  /** The list of a class: units in order, and the templates of each in order. */
  function Filed(us: seq<Unit>, c: int): seq<Plate>
  {
    if us == [] then []
    else
      var u := us[|us| - 1];
      Filed(us[..|us| - 1], c) + UnitPlates(u, c, Active(u.x))
  }

  lemma {:induction false} UnitPlatesExact(u: Unit, c: int, n: nat, p: Plate)
    requires n <= |u.x|
    ensures p in UnitPlates(u, c, n) <==> p.master == u && p.k < n && u.x[p.k].cls == c
  {
    if n > 0 {
      UnitPlatesExact(u, c, n - 1, p);
    }
  }

  /** A template is on the list of a class exactly if it is an active template of that class in some unit of
      the pool. */
  lemma {:induction false} FiledExact(us: seq<Unit>, c: int, p: Plate)
    ensures p in Filed(us, c) <==> p.master in us && p.k < Active(p.master.x) && p.master.x[p.k].cls == c
  {
    if us != [] {
      var n := |us| - 1;
      FiledExact(us[..n], c, p);
      UnitPlatesExact(us[n], c, Active(us[n].x), p);
      assert us == us[..n] + [us[n]];
    }
  }

  lemma {:induction false} UnitPlatesInOrder(u: Unit, c: int, n: nat, i: nat, j: nat)
    requires n <= |u.x| && i < j < |UnitPlates(u, c, n)|
    ensures var ps := UnitPlates(u, c, n); ps[i].master == ps[j].master == u && ps[i].k < ps[j].k < n
  {
    if n > 0 {
      if j < |UnitPlates(u, c, n - 1)| {
        UnitPlatesInOrder(u, c, n - 1, i, j);
      } else {
        UnitPlatesExact(u, c, n - 1, UnitPlates(u, c, n - 1)[i]);
      }
    }
  }

  /** The list of a class runs through the units in order, and through the templates of each in order. */
  lemma {:induction false} FiledInOrder(us: seq<Unit>, c: int, i: nat, j: nat) returns (a: nat, b: nat)
    requires i < j < |Filed(us, c)|
    ensures a <= b < |us| && Filed(us, c)[i].master == us[a] && Filed(us, c)[j].master == us[b]
    ensures a == b ==> Filed(us, c)[i].k < Filed(us, c)[j].k
  {
    hide UnitPlates, Active;
    var n := |us| - 1;
    var before, own := Filed(us[..n], c), UnitPlates(us[n], c, Active(us[n].x));
    if j < |before| {
      a, b := FiledInOrder(us[..n], c, i, j);
    } else {
      b := n;
      UnitPlatesExact(us[n], c, Active(us[n].x), own[j - |before|]);
      if i < |before| {
        FiledExact(us[..n], c, before[i]);
        a :| 0 <= a < n && us[..n][a] == before[i].master;
      } else {
        a := n;
        UnitPlatesInOrder(us[n], c, Active(us[n].x), i - |before|, j - |before|);
      }
    }
  }

  // ---- The pool ---------------------------------------------------------------------------------------

  /** Unit i is an instance of the kind that its place among the instances calls for. */
  ghost predicate Instances(us: seq<Unit>, descs: seq<Desc>)
    decreases |descs|
  {
    if descs == [] then us == []
    else
      var d := descs[|descs| - 1];
      && 0 <= d.quantity <= |us|
      && Instances(us[..|us| - d.quantity], descs[..|descs| - 1])
      && forall u <- us[|us| - d.quantity..] :: u.name == d.name && u.x == d.x
  }

  /** The templates of a unit can be filed: sixteen slots, active classes below sixteen. */
  ghost predicate Fileable(u: Unit)
  {
    |u.x| == 16 && forall k :: 0 <= k < Active(u.x) ==> 0 < u.x[k].cls < 16
  }

  lemma {:induction false} FiledAppend(us: seq<Unit>, vs: seq<Unit>, c: int)
    ensures Filed(us + vs, c) == Filed(us, c) + Filed(vs, c)
  {
    hide *;
    if vs == [] {
      assert us + vs == us;
      FiledNone();
    } else {
      var n := |vs| - 1;
      FiledAppend(us, vs[..n], c);
      FiledStep(vs, c);
      FiledStep(us + vs, c);
      assert (us + vs)[..|us + vs| - 1] == us + vs[..n];
    }
  }

  lemma {:induction false} FiledSame(us: seq<Unit>, x: seq<Template>, c: int)
    requires forall u <- us :: u.x == x
    ensures |Filed(us, c)| == |us| * Serving(x, c, Active(x))
  {
    if us != [] {
      var n := |us| - 1;
      FiledStep(us, c);
      hide *;
      FiledSame(us[..n], x, c);
      assert us[n].x == x;
      var s := Serving(x, c, Active(x));
      assert n * s + s == (n + 1) * s;
    }
  }

  /** The lists have as many entries as the descriptors call for. */
  lemma {:induction false} FiledMeetsDemand(us: seq<Unit>, descs: seq<Desc>, c: int)
    requires Instances(us, descs)
    ensures |Filed(us, c)| == Demand(descs, c)
    decreases |descs|
  {
    hide Serving, Active, Filed;
    if descs == [] {
      FiledNone();
    } else {
      var d := descs[|descs| - 1];
      var k := |us| - d.quantity;
      FiledMeetsDemand(us[..k], descs[..|descs| - 1], c);
      FiledSame(us[k..], d.x, c);
      FiledAppend(us[..k], us[k..], c);
      assert us == us[..k] + us[k..];
    }
  }

  datatype Option<T> = None | Some(value: T)

  class Pool {
    var units: seq<Unit>
    const table: array<seq<Plate>>

    ghost predicate Valid()
      reads this, table
    {
      table.Length == 16 && forall c :: 0 <= c < 16 ==> table[c] == Filed(units, c)
    }

    /** Build the pool: no class may have more than 8 templates, the room in its list. */
    constructor (descs: seq<Desc>)
      requires forall d <- descs :: Acceptable(d)
      requires forall c :: 0 <= c < 16 ==> Demand(descs, c) <= 8
      ensures Valid() && fresh(table)
      ensures Instances(units, descs)
      ensures forall u <- units :: fresh(u) && !u.busy
      ensures forall c :: 0 <= c < 16 ==> |table[c]| == Demand(descs, c) <= 8
    {
      table := new seq<Plate>[16](_ => []);
      units := [];
      new;
      FillInstances(descs);
      FillTable();
      forall c | 0 <= c < 16
        ensures |table[c]| == Demand(descs, c)
      {
        FiledMeetsDemand(units, descs, c);
      }
    }

    method FillInstances(descs: seq<Desc>)
      requires units == [] && forall d <- descs :: Acceptable(d)
      modifies `units
      ensures Instances(units, descs)
      ensures forall u <- units :: fresh(u) && !u.busy && Fileable(u)
    {
      for i := 0 to |descs|
        invariant Instances(units, descs[..i])
        invariant forall u <- units :: fresh(u) && !u.busy && Fileable(u)
      {
        ghost var before := units;
        assert descs[i] in descs;
        for j := 0 to descs[i].quantity
          invariant |units| == |before| + j && units[..|before|] == before
          invariant forall u <- units[|before|..] :: u.name == descs[i].name && u.x == descs[i].x
          invariant forall u <- units :: fresh(u) && !u.busy && Fileable(u)
        {
          var u := new Unit(descs[i].name, descs[i].x);
          units := units + [u];
        }
        assert descs[..i + 1][..i] == descs[..i];
      }
      assert descs[..|descs|] == descs;
    }

    method FillTable()
      requires table.Length == 16 && forall c :: 0 <= c < 16 ==> table[c] == []
      requires forall u <- units :: Fileable(u)
      modifies table
      ensures forall c :: 0 <= c < 16 ==> table[c] == Filed(units, c)
    {
      hide Filed, Fileable;
      assert forall c :: Filed([], c) == [] by { FiledNone(); }
      assert units[..0] == [];
      for i := 0 to |units|
        invariant forall c :: 0 <= c < 16 ==> table[c] == Filed(units[..i], c)
      {
        FileUnit(units[i], units[..i]);
        assert units[..i + 1][..i] == units[..i];
        forall c | 0 <= c < 16
          ensures table[c] == Filed(units[..i + 1], c)
        {
          FiledStep(units[..i + 1], c);
        }
      }
      assert units[..|units|] == units;
    }

    /** File the templates of one unit, up to the end of its list. */
    method FileUnit(u: Unit, ghost us: seq<Unit>)
      requires table.Length == 16 && forall c :: 0 <= c < 16 ==> table[c] == Filed(us, c)
      requires Fileable(u)
      modifies table
      ensures forall c :: 0 <= c < 16 ==> table[c] == Filed(us, c) + UnitPlates(u, c, Active(u.x))
    {
      hide Filed;
      var j := 0;
      while j < 16 && u.x[j].cls != 0
        invariant 0 <= j <= Active(u.x)
        invariant forall c :: 0 <= c < 16 ==> table[c] == Filed(us, c) + UnitPlates(u, c, j)
      {
        var cls := u.x[j].cls;
        table[cls] := table[cls] + [Plate(u, j)];
        j := j + 1;
      }
      assert j == Active(u.x);
    }

    /** The earliest template of a class whose unit is free; none exactly if all are busy. */
    method Get(cls: int) returns (r: Option<Plate>)
      requires Valid() && 0 <= cls < 16 && |table[cls]| > 0
      ensures r.None? <==> forall i :: 0 <= i < |table[cls]| ==> table[cls][i].master.busy
      ensures r.Some? ==> exists i :: 0 <= i < |table[cls]| && r.value == table[cls][i] && !table[cls][i].master.busy
                            && forall j :: 0 <= j < i ==> table[cls][j].master.busy
    {
      hide Filed;
      for i := 0 to |table[cls]|
        invariant forall j :: 0 <= j < i ==> table[cls][j].master.busy
      {
        if !table[cls][i].master.busy {
          return Some(table[cls][i]);
        }
      }
      return None;
    }

    /** No template of a class is offered exactly if every unit with an active template of the class is busy. */
    lemma NoneFreeMeansAllBusy(cls: int)
      requires Valid() && 0 <= cls < 16
      ensures (forall i :: 0 <= i < |table[cls]| ==> table[cls][i].master.busy)
         <==> (forall u <- units :: (exists k: nat :: k < Active(u.x) && u.x[k].cls == cls) ==> u.busy)
    {
      hide Filed, Active;
      if forall i :: 0 <= i < |table[cls]| ==> table[cls][i].master.busy {
        forall u <- units | exists k: nat :: k < Active(u.x) && u.x[k].cls == cls
          ensures u.busy
        {
          var k: nat :| k < Active(u.x) && u.x[k].cls == cls;
          FiledExact(units, cls, Plate(u, k));
          var i :| 0 <= i < |table[cls]| && table[cls][i] == Plate(u, k);
        }
      }
      if forall u <- units :: (exists k: nat :: k < Active(u.x) && u.x[k].cls == cls) ==> u.busy {
        forall i | 0 <= i < |table[cls]|
          ensures table[cls][i].master.busy
        {
          FiledExact(units, cls, table[cls][i]);
        }
      }
    }
  }

  lemma FiledNone()
    ensures forall c :: Filed([], c) == []
  {
  }

  lemma FiledStep(us: seq<Unit>, c: int)
    requires us != []
    ensures Filed(us, c) == Filed(us[..|us| - 1], c) + UnitPlates(us[|us| - 1], c, Active(us[|us| - 1].x))
  {
  }
}
